/** What the English and the Polish `ProcessTwitchCommand` share: normalising
    the chat command, the command and target kinds, the cursor movements they
    drive and the methods that drive them through the module's buttons. */
module Twitch {
  import Text
  import opened Catalog
  import opened Cursor
  import opened Flags

  /** How the command coroutine ends: it runs to its end, it throws
      (`Substring` past the end of the string), or it never ends (a `while`
      loop whose `OnRight` calls no longer move the cursor). */
  datatype Completion = Completed | Threw | NeverEnds

  /** The branch of the command chain a normalised command takes. `Goto`
      carries the text after `SET ` / `SUBMIT ` and whether a submit follows. */
  datatype Command =
    | SubmitCmd
    | LeftCmd
    | RightCmd
    | CycleCmd
    | Goto(args: string, submit: bool)
    | Ignored
    | Throws

  /** What the argument of a `SET` / `SUBMIT` command designates: a slot by its
      digit (`Slot(i)` for digit `i + 1`), a country by its upper-cased name,
      or nothing the module recognises. */
  datatype Target = Slot(index: int) | Named(name: string) | NoTarget

  /** The observable result of a command: how the coroutine ends, where the
      cursor stands afterwards, and whether the command ends with a press of
      submit. */
  datatype Effect = Effect(completion: Completion, position: int, submits: bool)

  /** `command.ToUpperInvariant().Trim()`. */
  function Normalize(raw: string): (cmd: string)
    ensures |cmd| <= |raw|
    ensures cmd == [] || (!Text.IsWhiteSpace(cmd[0]) && !Text.IsWhiteSpace(cmd[|cmd| - 1]))
    ensures var up := Text.Upper(raw);
      exists a, b ::
        && 0 <= a <= b <= |up| && cmd == up[a..b]
        && (forall i :: 0 <= i < a ==> Text.IsWhiteSpace(up[i]))
        && (forall i :: b <= i < |up| ==> Text.IsWhiteSpace(up[i]))
  {
    Text.Trim(Text.Upper(raw))
  }

  /** The four commands that are whole keywords. */
  const Keywords: seq<string> := ["SUBMIT", "LEFT", "RIGHT", "CYCLE"]

  /** `Substring(0, 4) == "SET "` and `Substring(0, 7) == "SUBMIT "`, on a
      command with enough code units, are prefix tests on its characters; and
      `"SET "` and `"SUBMIT "` take one code unit per character. */
  lemma KeywordTests(cmd: string)
    ensures |Text.Utf16(cmd)| >= 4 ==>
      (Text.Utf16(cmd)[..4] == Text.Utf16("SET ") <==> Text.StartsWith(cmd, "SET "))
    ensures |Text.Utf16(cmd)| >= 7 ==>
      (Text.Utf16(cmd)[..7] == Text.Utf16("SUBMIT ") <==> Text.StartsWith(cmd, "SUBMIT "))
    ensures |Text.Utf16("SET ")| == 4 && |Text.Utf16("SUBMIT ")| == 7
  {
    Text.BmpUtf16("SET ");
    Text.BmpUtf16("SUBMIT ");
    if |Text.Utf16(cmd)| >= 4 {
      Text.SubstringIsPrefix(cmd, "SET ");
    }
    if |Text.Utf16(cmd)| >= 7 {
      Text.SubstringIsPrefix(cmd, "SUBMIT ");
    }
  }

  /** A command longer than its keyword, counted in code units, has an
      argument after it. */
  lemma LongerThanKeyword(cmd: string)
    ensures |Text.Utf16(cmd)| > 4 && Text.StartsWith(cmd, "SET ") ==> |cmd| > 4
    ensures |Text.Utf16(cmd)| > 7 && Text.StartsWith(cmd, "SUBMIT ") ==> |cmd| > 7
  {
    KeywordTests(cmd);
    if |cmd| == 4 {
      assert cmd == cmd[..4];
    }
    if |cmd| == 7 {
      assert cmd == cmd[..7];
    }
  }

  /** `args.Length == 1 && "1234567".Contains(args)` selects a slot, otherwise a
      name found in `names` selects that name. */
  function TargetIn(args: string, names: seq<string>): (t: Target)
    ensures t.Slot? <==> |args| == 1 && '1' <= args[0] <= '7'
    ensures t.Slot? ==> 0 <= t.index < Slots && args[0] as int == '1' as int + t.index
    ensures t.Named? <==> !t.Slot? && args in names
    ensures t.Named? ==> t.name == args
  {
    if |args| == 1 && args[0] in "1234567" then Slot(args[0] as int - '1' as int)
    else if args in names then Named(args)
    else NoTarget
  }

  /** A right step then `k` more is `k + 1` right steps. */
  lemma StepsRightShift(p: int, k: nat)
    requires 0 <= p < Slots
    ensures StepsRight(StepRight(p), k) == StepsRight(p, k + 1)
  {}

  /** How many right presses a name search makes from `from` when it stops at
      the first slot showing `name` or after `bound` presses, whichever comes
      first. */
  function Seek(names: seq<string>, from: int, name: string, bound: nat): (steps: nat)
    requires |names| == Slots && 0 <= from < Slots
    ensures steps <= bound
    ensures steps < bound ==> names[StepsRight(from, steps)] == name
    decreases bound
  {
    if bound == 0 || names[from] == name then 0
    else
      var rest := Seek(names, StepRight(from), name, bound - 1);
      StepsRightShift(from, rest);
      1 + rest
  }

  /** Every slot the search passes over shows another name. */
  lemma {:induction false} SeekMisses(names: seq<string>, from: int, name: string, bound: nat, k: nat)
    requires |names| == Slots && 0 <= from < Slots
    requires k < Seek(names, from, name, bound)
    ensures names[StepsRight(from, k)] != name
    decreases bound
  {
    if k > 0 {
      SeekMisses(names, StepRight(from), name, bound - 1, k - 1);
      StepsRightShift(from, k - 1);
    }
  }

  /** A name shown at slot `j` is reached no later than slot `j`. */
  lemma {:induction false} SeekReaches(names: seq<string>, from: int, name: string, bound: nat, j: int)
    requires |names| == Slots && 0 <= from < Slots && 0 <= j < Slots
    requires names[j] == name && Distance(from, j) < bound
    ensures Seek(names, from, name, bound) <= Distance(from, j)
    decreases bound
  {
    if names[from] != name {
      DistanceShrinks(from, j);
      SeekReaches(names, StepRight(from), name, bound - 1, j);
    }
  }

  /** A search for a name among the candidates stops on a slot showing it
      before a full turn. */
  lemma SeekFindsCandidate(names: seq<string>, from: int, name: string)
    requires |names| == Slots && 0 <= from < Slots && name in names
    ensures Seek(names, from, name, Slots) < Slots
    ensures names[StepsRight(from, Seek(names, from, name, Slots))] == name
  {
    var j :| 0 <= j < Slots && names[j] == name;
    SeekReaches(names, from, name, Slots, j);
  }

  /** With distinct names the search stops exactly on the slot showing `name`. */
  lemma SeekFindsSlot(names: seq<string>, from: int, j: int)
    requires |names| == Slots && 0 <= from < Slots && 0 <= j < Slots
    requires forall a, b :: 0 <= a < b < Slots ==> names[a] != names[b]
    ensures StepsRight(from, Seek(names, from, names[j], Slots)) == j
  {
    SeekFindsCandidate(names, from, names[j]);
  }

  /** A search for a name no candidate shows makes all `bound` presses and,
      with a bound of seven, ends where it started. */
  lemma {:induction false} SeekAbsent(names: seq<string>, from: int, name: string, bound: nat)
    requires |names| == Slots && 0 <= from < Slots && name !in names
    ensures Seek(names, from, name, bound) == bound
    ensures bound == Slots ==> StepsRight(from, Seek(names, from, name, bound)) == from
    decreases bound
  {
    if bound > 0 {
      assert names[from] != name;
      SeekAbsent(names, StepRight(from), name, bound - 1);
    }
  }

  /** The commands both languages handle the same way: the three buttons, the
      seven-press cycle, an unrecognised command and a thrown exception. */
  function CommonEffect(cmd: Command, p0: int, live: bool): (e: Effect)
    requires !cmd.Goto? && 0 <= p0 < Slots
    ensures e.completion == Threw <==> cmd == Throws
    ensures e.submits <==> cmd == SubmitCmd
    ensures 0 <= e.position < Slots
    ensures !live || cmd !in {LeftCmd, RightCmd} ==> e.position == p0
    ensures live && cmd == LeftCmd ==> e.position == StepLeft(p0)
    ensures live && cmd == RightCmd ==> e.position == StepRight(p0)
  {
    match cmd
    case SubmitCmd => Effect(Completed, p0, true)
    case LeftCmd => Effect(Completed, if live then StepLeft(p0) else p0, false)
    case RightCmd => Effect(Completed, if live then StepRight(p0) else p0, false)
    case CycleCmd =>
      SevenStepsRightIsIdentity(p0);
      Effect(Completed, if live then StepsRight(p0, Slots) else p0, false)
    case Ignored => Effect(Completed, p0, false)
    case Throws => Effect(Threw, p0, false)
  }

  /** `SET n` / `SUBMIT n`: right presses until slot `i` is highlighted; when
      the module is solved and the cursor is elsewhere the presses never
      move it and the loop never ends. */
  function SlotEffect(i: int, p0: int, live: bool, submit: bool): (e: Effect)
    requires 0 <= i < Slots && 0 <= p0 < Slots
    ensures e.completion != Threw
    ensures e.completion == NeverEnds <==> !live && p0 != i
    ensures e.completion == Completed ==> e.position == i && e.submits == submit
    ensures e.completion == NeverEnds ==> e.position == p0 && !e.submits
  {
    if live || p0 == i then Effect(Completed, i, submit) else Effect(NeverEnds, p0, false)
  }

  /** The post-state of the verdict and the lock after a command whose effect
      ends with, or without, a press of submit. */
  ghost predicate Reported(m: FlagsModule, submits: bool, live: bool, verdict: Verdict)
    reads m
    requires m.Valid()
  {
    if submits then
      verdict == SubmitVerdict(live, m.IsAnswer(m.position)) && m.canInteract == (live && !m.IsAnswer(m.position))
    else
      verdict == NoVerdict && m.canInteract == live
  }

  /** The upper-cased names of the module's candidates, in slot order. */
  function CandidateNames(m: FlagsModule): (names: seq<string>)
    reads m
    requires m.Valid()
    ensures |names| == Slots
    ensures forall i :: 0 <= i < Slots ==> names[i] == AllUpperNames(m.catalog)[m.countries[i]]
  {
    UpperNames(m.catalog, m.countries)
  }

  /** Every candidate's name is a catalog name, so a name the English module
      finds among the candidates the Polish module finds in the catalog. */
  lemma CandidatesAreKnown(m: FlagsModule)
    requires m.Valid()
    ensures forall i :: 0 <= i < Slots ==> CandidateNames(m)[i] in AllUpperNames(m.catalog)
  {
    forall i | 0 <= i < Slots ensures CandidateNames(m)[i] in AllUpperNames(m.catalog) {
      assert m.countries[i] < |m.catalog|;
    }
  }

  /** Runs a command of `CommonEffect` through the module's buttons. */
  method RunCommon(m: FlagsModule, cmd: Command) returns (completion: Completion, verdict: Verdict)
    requires m.Valid() && !cmd.Goto?
    modifies m`position, m`canInteract
    ensures m.Valid()
    ensures var e := CommonEffect(cmd, old(m.position), old(m.canInteract));
      && completion == e.completion && m.position == e.position
      && Reported(m, e.submits, old(m.canInteract), verdict)
  {
    completion := Completed;
    verdict := NoVerdict;
    match cmd
    case SubmitCmd =>
      verdict := m.OnSubmit();
    case LeftCmd =>
      m.OnLeft();
    case RightCmd =>
      m.OnRight();
    case CycleCmd =>
      ghost var p0 := m.position;
      for i := 0 to 7
        invariant m.Valid() && m.canInteract == old(m.canInteract)
        invariant m.position == if m.canInteract then StepsRight(p0, i) else p0
      {
        m.OnRight();
      }
      SevenStepsRightIsIdentity(p0);
    case Ignored =>
    case Throws =>
      completion := Threw;
  }

  /** `while (target != position + 1) OnRight();`. A loop that could never end
      is reported as `NeverEnds` without being entered: its presses would
      change nothing. */
  method SetToSlot(m: FlagsModule, i: int) returns (completion: Completion, presses: nat)
    requires m.Valid() && 0 <= i < Slots
    modifies m`position
    ensures m.Valid()
    ensures var e := SlotEffect(i, old(m.position), m.canInteract, false);
      completion == e.completion && m.position == e.position
    ensures completion == Completed ==> presses == Distance(old(m.position), i) < Slots
  {
    presses := 0;
    if !m.canInteract && m.position != i {
      return NeverEnds, 0;
    }
    ghost var p0 := m.position;
    while i + 1 != m.position + 1
      invariant m.Valid() && m.canInteract == old(m.canInteract)
      invariant m.canInteract || m.position == i
      invariant presses + Distance(m.position, i) == Distance(p0, i)
      decreases Distance(m.position, i)
    {
      DistanceShrinks(m.position, i);
      m.OnRight();
      presses := presses + 1;
    }
    return Completed, presses;
  }

  /** The English name loop, `while (names[position] != args) OnRight();`,
      entered only when some candidate shows `name`. A loop that could never
      end is reported as `NeverEnds` without being entered. */
  method SeekCandidate(m: FlagsModule, name: string) returns (completion: Completion)
    requires m.Valid() && name in CandidateNames(m)
    modifies m`position
    ensures m.Valid()
    ensures completion != Threw
    ensures var names := CandidateNames(m);
      && (completion == NeverEnds <==> !m.canInteract && names[old(m.position)] != name)
      && m.position == (if m.canInteract then StepsRight(old(m.position), Seek(names, old(m.position), name, Slots)) else old(m.position))
  {
    var names := UpperNames(m.catalog, m.countries);
    if !m.canInteract {
      // The loop test fails at once when the highlighted name matches;
      // otherwise the presses never move the cursor.
      return if names[m.position] == name then Completed else NeverEnds;
    }
    PressUntilShown(m, names, name);
    return Completed;
  }

  /** The English name loop on a module that accepts input, comparing against
      `names`: right presses until the cursor is on `name`. */
  method PressUntilShown(m: FlagsModule, names: seq<string>, name: string)
    requires m.Valid() && m.canInteract && |names| == Slots && name in names
    modifies m`position
    ensures m.Valid()
    ensures m.position == StepsRight(old(m.position), Seek(names, old(m.position), name, Slots))
  {
    ghost var p0 := m.position;
    SeekFindsCandidate(names, p0, name);
    ghost var total := Seek(names, p0, name, Slots);
    forall k | 0 <= k < total ensures names[StepsRight(p0, k)] != name {
      SeekMisses(names, p0, name, Slots, k);
    }
    PressToFirstMatch(m, names, name, total);
  }

  /** The loop itself: the first slot showing `name` lies `total` presses to
      the right, so the loop makes exactly those presses. */
  method PressToFirstMatch(m: FlagsModule, names: seq<string>, name: string, ghost total: nat)
    requires m.Valid() && m.canInteract && |names| == Slots && total < Slots
    requires names[StepsRight(m.position, total)] == name
    requires forall k :: 0 <= k < total ==> names[StepsRight(m.position, k)] != name
    modifies m`position
    ensures m.Valid()
    ensures m.position == StepsRight(old(m.position), total)
  {
    ghost var p0 := m.position;
    ghost var steps := 0;
    while names[m.position] != name
      invariant m.Valid() && m.canInteract
      invariant 0 <= steps <= total && m.position == StepsRight(p0, steps)
      decreases total - steps
    {
      m.OnRight();
      steps := steps + 1;
    }
  }

  /** The Polish name loop, `while (names[position] != args && cycle++ < 7)
      OnRight();`: at most seven presses. Only the presses are observable, so
      the final value of `cycle` (one more after the last comparison) is not
      kept. */
  method SeekBounded(m: FlagsModule, name: string) returns (presses: nat)
    requires m.Valid()
    modifies m`position
    ensures m.Valid()
    ensures presses <= Slots
    ensures var names := CandidateNames(m);
      && m.position == (if m.canInteract then StepsRight(old(m.position), Seek(names, old(m.position), name, Slots)) else old(m.position))
      && (m.canInteract ==> presses == Seek(names, old(m.position), name, Slots))
  {
    var names := UpperNames(m.catalog, m.countries);
    presses := PressAtMostSeven(m, names, name);
  }

  /** The Polish name loop comparing against `names`; once the module is
      solved the presses leave the cursor where it is. */
  method PressAtMostSeven(m: FlagsModule, names: seq<string>, name: string) returns (cycle: nat)
    requires m.Valid() && |names| == Slots
    modifies m`position
    ensures m.Valid()
    ensures cycle <= Slots
    ensures m.position == (if m.canInteract then StepsRight(old(m.position), Seek(names, old(m.position), name, Slots)) else old(m.position))
    ensures m.canInteract ==> cycle == Seek(names, old(m.position), name, Slots)
  {
    ghost var p0 := m.position;
    ghost var total := Seek(names, p0, name, Slots);
    cycle := 0;
    while names[m.position] != name && cycle < 7
      invariant m.Valid() && m.canInteract == old(m.canInteract)
      invariant 0 <= cycle <= Slots
      invariant m.canInteract ==> cycle <= total && m.position == StepsRight(p0, cycle)
      invariant !m.canInteract ==> m.position == p0
      decreases Slots - cycle
    {
      // Before seven presses the search stops on a match, so none is passed.
      assert m.canInteract ==> cycle != total;
      cycle := cycle + 1;
      m.OnRight();
    }
    if m.canInteract && cycle < total {
      SeekMisses(names, p0, name, Slots, cycle);
    }
  }
}
