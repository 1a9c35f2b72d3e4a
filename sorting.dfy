/** LINQ's `OrderBy(k1).ThenBy(k2)`: a stable sort on a two-part key. The
    elements sorted are catalog indices; `keys[i]` is the key of catalog entry i. */
module Sorting {
  import Text

  /** One sort key: a dial code or a string field. */
  datatype Key = Num(n: int) | Str(s: string)

  /** The primary key and the `ThenBy` key. A sort with no `ThenBy` uses the
      same `tieBreak` for every element, which leaves equal primaries in the
      order the stable sort found them. */
  datatype SortKey = SortKey(primary: Key, tieBreak: Key)

  const NoTieBreak: Key := Str("")

  predicate KeyLess(a: Key, b: Key) {
    match (a, b)
    case (Num(x), Num(y)) => x < y
    case (Str(x), Str(y)) => Text.StrLess(x, y)
    case (Num(_), Str(_)) => true
    case (Str(_), Num(_)) => false
  }

  /** Strictly before: by primary key, then by tie-break key. */
  predicate Less(a: SortKey, b: SortKey) {
    KeyLess(a.primary, b.primary) || (a.primary == b.primary && KeyLess(a.tieBreak, b.tieBreak))
  }

  /** May come before: not strictly after. */
  predicate Le(a: SortKey, b: SortKey) {
    !Less(b, a)
  }

  lemma KeyLessIrreflexive(a: Key)
    ensures !KeyLess(a, a)
  {
    if a.Str? {
      Text.StrLessIrreflexive(a.s);
    }
  }

  lemma KeyLessTransitive(a: Key, b: Key, c: Key)
    requires KeyLess(a, b) && KeyLess(b, c)
    ensures KeyLess(a, c)
  {
    if a.Str? && b.Str? && c.Str? {
      Text.StrLessTransitive(a.s, b.s, c.s);
    }
  }

  lemma KeyLessTotal(a: Key, b: Key)
    requires a != b
    ensures KeyLess(a, b) || KeyLess(b, a)
  {
    if a.Str? && b.Str? {
      Text.StrLessTotal(a.s, b.s);
    }
  }

  lemma LessIrreflexive(a: SortKey)
    ensures !Less(a, a)
  {
    KeyLessIrreflexive(a.primary);
    KeyLessIrreflexive(a.tieBreak);
  }

  lemma LessAsymmetric(a: SortKey, b: SortKey)
    requires Less(a, b)
    ensures !Less(b, a)
  {
    KeyLessIrreflexive(a.primary);
    KeyLessIrreflexive(a.tieBreak);
    if KeyLess(b.primary, a.primary) {
      KeyLessTransitive(a.primary, b.primary, a.primary);
    } else if b.primary == a.primary && KeyLess(b.tieBreak, a.tieBreak) {
      KeyLessTransitive(a.tieBreak, b.tieBreak, a.tieBreak);
    }
  }

  /** `Le` is a total preorder, and two keys that may each come before the
      other are equal. */
  lemma LeTotal(a: SortKey, b: SortKey)
    ensures Le(a, b) || Le(b, a)
  {
    if Less(a, b) {
      LessAsymmetric(a, b);
    }
  }

  lemma LeTransitive(a: SortKey, b: SortKey, c: SortKey)
    requires Le(a, b) && Le(b, c)
    ensures Le(a, c)
  {
    LessConnected(a, b);
    LessConnected(b, c);
    if a != b && b != c {
      LessTransitive(a, b, c);
      LessAsymmetric(a, c);
    }
  }

  lemma LessTransitive(a: SortKey, b: SortKey, c: SortKey)
    requires Less(a, b) && Less(b, c)
    ensures Less(a, c)
  {
    if KeyLess(a.primary, b.primary) && KeyLess(b.primary, c.primary) {
      KeyLessTransitive(a.primary, b.primary, c.primary);
    } else if a.primary == b.primary && b.primary == c.primary {
      KeyLessTransitive(a.tieBreak, b.tieBreak, c.tieBreak);
    }
  }

  lemma LessConnected(a: SortKey, b: SortKey)
    ensures a == b || Less(a, b) || Less(b, a)
  {
    if a != b {
      if a.primary != b.primary {
        KeyLessTotal(a.primary, b.primary);
      } else {
        KeyLessTotal(a.tieBreak, b.tieBreak);
      }
    }
  }

  lemma LeAntisymmetric(a: SortKey, b: SortKey)
    ensures Le(a, b) && Le(b, a) ==> a == b
  {
    LessConnected(a, b);
  }

  /** The key of element `x`; indices outside the table never occur in a round. */
  function KeyAt(keys: seq<SortKey>, x: nat): SortKey {
    if x < |keys| then keys[x] else SortKey(Num(0), NoTieBreak)
  }

  ghost predicate SortedBy(keys: seq<SortKey>, s: seq<nat>) {
    forall i, j :: 0 <= i < j < |s| ==> Le(KeyAt(keys, s[i]), KeyAt(keys, s[j]))
  }

  /** The elements carrying key `k` of `[x]`, or none. */
  function Own(keys: seq<SortKey>, x: nat, k: SortKey): seq<nat> {
    if KeyAt(keys, x) == k then [x] else []
  }

  /** The elements of `s` whose key is `k`, in the order they occur in `s`. */
  function WithKey(keys: seq<SortKey>, s: seq<nat>, k: SortKey): seq<nat> {
    if s == [] then []
    else Own(keys, s[0], k) + WithKey(keys, s[1..], k)
  }

  /** Puts `x` in front of the first element that it may precede. */
  function Insert(keys: seq<SortKey>, x: nat, s: seq<nat>): (r: seq<nat>)
    ensures multiset(r) == multiset(s) + multiset{x}
  {
    if s == [] then [x]
    else if Le(KeyAt(keys, x), KeyAt(keys, s[0])) then [x] + s
    else assert s == [s[0]] + s[1..]; [s[0]] + Insert(keys, x, s[1..])
  }

  /** `s.OrderBy(key)` as a stable insertion sort: the result is a permutation of `s`. */
  function SortBy(keys: seq<SortKey>, s: seq<nat>): (r: seq<nat>)
    ensures multiset(r) == multiset(s)
    ensures |r| == |s|
  {
    if s == [] then []
    else assert s == [s[0]] + s[1..]; Insert(keys, s[0], SortBy(keys, s[1..]))
  }

  /** A head that may precede every element of a sorted tail gives a sorted sequence. */
  lemma ConsSorted(keys: seq<SortKey>, a: nat, t: seq<nat>)
    requires SortedBy(keys, t)
    requires forall j :: 0 <= j < |t| ==> Le(KeyAt(keys, a), KeyAt(keys, t[j]))
    ensures SortedBy(keys, [a] + t)
  {
    var r := [a] + t;
    forall i, j | 0 <= i < j < |r| ensures Le(KeyAt(keys, r[i]), KeyAt(keys, r[j])) {
      if i > 0 {
        assert r[i] == t[i - 1] && r[j] == t[j - 1];
      } else {
        assert r[j] == t[j - 1];
      }
    }
  }

  lemma {:induction false} InsertSorted(keys: seq<SortKey>, x: nat, s: seq<nat>)
    requires SortedBy(keys, s)
    ensures SortedBy(keys, Insert(keys, x, s))
  {
    if s == [] {
    } else if Le(KeyAt(keys, x), KeyAt(keys, s[0])) {
      forall j | 0 <= j < |s| ensures Le(KeyAt(keys, x), KeyAt(keys, s[j])) {
        if j > 0 {
          LeTransitive(KeyAt(keys, x), KeyAt(keys, s[0]), KeyAt(keys, s[j]));
        }
      }
      ConsSorted(keys, x, s);
    } else {
      var t := Insert(keys, x, s[1..]);
      InsertSorted(keys, x, s[1..]);
      LeTotal(KeyAt(keys, x), KeyAt(keys, s[0]));
      HeadPrecedesInsert(keys, x, s, t);
      ConsSorted(keys, s[0], t);
    }
  }

  /** In the branch where `x` goes past the head, the head may precede every
      element of the rest of the insertion. */
  lemma HeadPrecedesInsert(keys: seq<SortKey>, x: nat, s: seq<nat>, t: seq<nat>)
    requires s != [] && SortedBy(keys, s) && Le(KeyAt(keys, s[0]), KeyAt(keys, x))
    requires multiset(t) == multiset(s[1..]) + multiset{x}
    ensures forall j :: 0 <= j < |t| ==> Le(KeyAt(keys, s[0]), KeyAt(keys, t[j]))
  {
    forall j | 0 <= j < |t| ensures Le(KeyAt(keys, s[0]), KeyAt(keys, t[j])) {
      assert t[j] in multiset(t);
      if t[j] != x {
        assert t[j] in multiset(s[1..]);
        var k :| 0 <= k < |s[1..]| && s[1..][k] == t[j];
        assert s[k + 1] == t[j];
      }
    }
  }

  /** The result of `SortBy` is in key order. */
  lemma {:induction false} SortBySorted(keys: seq<SortKey>, s: seq<nat>)
    ensures SortedBy(keys, SortBy(keys, s))
  {
    if s != [] {
      SortBySorted(keys, s[1..]);
      InsertSorted(keys, s[0], SortBy(keys, s[1..]));
    }
  }

  lemma WithKeyCons(keys: seq<SortKey>, a: nat, s: seq<nat>, k: SortKey)
    ensures WithKey(keys, [a] + s, k) == Own(keys, a, k) + WithKey(keys, s, k)
  {
    assert ([a] + s)[0] == a && ([a] + s)[1..] == s;
  }

  lemma {:induction false} InsertWithKey(keys: seq<SortKey>, x: nat, s: seq<nat>, k: SortKey)
    ensures WithKey(keys, Insert(keys, x, s), k) == Own(keys, x, k) + WithKey(keys, s, k)
  {
    if s == [] {
      WithKeyCons(keys, x, [], k);
    } else if Le(KeyAt(keys, x), KeyAt(keys, s[0])) {
      WithKeyCons(keys, x, s, k);
    } else {
      InsertWithKey(keys, x, s[1..], k);
      LessIrreflexive(KeyAt(keys, x));
      assert Insert(keys, x, s) == [s[0]] + Insert(keys, x, s[1..]);
      assert s == [s[0]] + s[1..];
      PassHead(keys, s[0], Insert(keys, x, s[1..]), s[1..], x, k);
    }
  }

  /** Moving `x` past a head `a` whose key differs from it, or is not `k`,
      leaves the elements carrying `k` in the same order. */
  lemma PassHead(keys: seq<SortKey>, a: nat, t: seq<nat>, s: seq<nat>, x: nat, k: SortKey)
    requires Own(keys, x, k) == [] || Own(keys, a, k) == []
    requires WithKey(keys, t, k) == Own(keys, x, k) + WithKey(keys, s, k)
    ensures WithKey(keys, [a] + t, k) == Own(keys, x, k) + WithKey(keys, [a] + s, k)
  {
    WithKeyCons(keys, a, t, k);
    WithKeyCons(keys, a, s, k);
    var ox, oa, w := Own(keys, x, k), Own(keys, a, k), WithKey(keys, s, k);
    if ox == [] {
      assert oa + (ox + w) == oa + w == ox + (oa + w);
    } else {
      assert oa + (ox + w) == ox + w == ox + (oa + w);
    }
  }

  /** Stability: for every key, the elements carrying it appear in the result in
      the same relative order as in the input. */
  lemma {:induction false} SortByStable(keys: seq<SortKey>, s: seq<nat>, k: SortKey)
    ensures WithKey(keys, SortBy(keys, s), k) == WithKey(keys, s, k)
  {
    if s != [] {
      SortByStable(keys, s[1..], k);
      InsertWithKey(keys, s[0], SortBy(keys, s[1..]), k);
    }
  }

  /** A stable sort is determined by its input: any key-ordered sequence that
      keeps, key by key, the input's elements in the input's order is `SortBy`'s. */
  lemma SortByUnique(keys: seq<SortKey>, s: seq<nat>, r: seq<nat>)
    requires SortedBy(keys, r)
    requires forall k :: WithKey(keys, r, k) == WithKey(keys, s, k)
    ensures r == SortBy(keys, s)
  {
    var t := SortBy(keys, s);
    SortBySorted(keys, s);
    forall k ensures WithKey(keys, r, k) == WithKey(keys, t, k) {
      SortByStable(keys, s, k);
    }
    SortedSameGroupsEqual(keys, r, t);
  }

  lemma WithKeyHead(keys: seq<SortKey>, s: seq<nat>, k: SortKey)
    requires s != [] && KeyAt(keys, s[0]) == k
    ensures WithKey(keys, s, k) == [s[0]] + WithKey(keys, s[1..], k)
  {}

  /** If some element of `s` has key `k`, then `WithKey(keys, s, k)` is not empty. */
  lemma {:induction false} WithKeyNonEmpty(keys: seq<SortKey>, s: seq<nat>, j: nat)
    requires j < |s|
    ensures WithKey(keys, s, KeyAt(keys, s[j])) != []
  {
    if j > 0 {
      WithKeyNonEmpty(keys, s[1..], j - 1);
    }
  }

  /** Every element of `WithKey(keys, s, k)` occurs in `s` and carries key `k`. */
  lemma {:induction false} WithKeyMembers(keys: seq<SortKey>, s: seq<nat>, k: SortKey, i: nat)
    requires i < |WithKey(keys, s, k)|
    ensures exists j :: 0 <= j < |s| && s[j] == WithKey(keys, s, k)[i] && KeyAt(keys, s[j]) == k
  {
    if KeyAt(keys, s[0]) == k {
      if i > 0 {
        WithKeyMembers(keys, s[1..], k, i - 1);
        var j :| 0 <= j < |s[1..]| && s[1..][j] == WithKey(keys, s[1..], k)[i - 1] && KeyAt(keys, s[1..][j]) == k;
        assert s[j + 1] == s[1..][j];
      }
    } else {
      WithKeyMembers(keys, s[1..], k, i);
      var j :| 0 <= j < |s[1..]| && s[1..][j] == WithKey(keys, s[1..], k)[i] && KeyAt(keys, s[1..][j]) == k;
      assert s[j + 1] == s[1..][j];
    }
  }

  lemma {:induction false} SortedSameGroupsEqual(keys: seq<SortKey>, r: seq<nat>, t: seq<nat>)
    requires SortedBy(keys, r) && SortedBy(keys, t)
    requires forall k :: WithKey(keys, r, k) == WithKey(keys, t, k)
    ensures r == t
    decreases |r| + |t|
  {
    if r == [] && t != [] {
      WithKeyNonEmpty(keys, t, 0);
      assert false;
    } else if r != [] && t == [] {
      WithKeyNonEmpty(keys, r, 0);
      assert false;
    } else if r != [] {
      var kr, kt := KeyAt(keys, r[0]), KeyAt(keys, t[0]);
      // t holds an element with r's first key, so t's first key may precede it
      WithKeyNonEmpty(keys, r, 0);
      WithKeyMembers(keys, t, kr, 0);
      var j :| 0 <= j < |t| && KeyAt(keys, t[j]) == kr;
      assert j == 0 || Le(kt, kr);
      WithKeyNonEmpty(keys, t, 0);
      WithKeyMembers(keys, r, kt, 0);
      var i :| 0 <= i < |r| && KeyAt(keys, r[i]) == kt;
      assert i == 0 || Le(kr, kt);
      LeAntisymmetric(kr, kt);
      assert kr == kt;
      WithKeyHead(keys, r, kr);
      WithKeyHead(keys, t, kr);
      assert r[0] == t[0];
      forall k ensures WithKey(keys, r[1..], k) == WithKey(keys, t[1..], k) {
        if k == kr {
          WithKeyHead(keys, r, k);
          WithKeyHead(keys, t, k);
          assert WithKey(keys, r[1..], k) == WithKey(keys, r, k)[1..];
          assert WithKey(keys, t[1..], k) == WithKey(keys, t, k)[1..];
        } else {
          assert WithKey(keys, r, k) == WithKey(keys, r[1..], k);
          assert WithKey(keys, t, k) == WithKey(keys, t[1..], k);
        }
      }
      SortedSameGroupsEqual(keys, r[1..], t[1..]);
      assert r == [r[0]] + r[1..] && t == [t[0]] + t[1..];
    }
  }
}
