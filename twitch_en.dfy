/** `ProcessTwitchCommand` of the English module: the command chain, whose
    `SET ` / `SUBMIT ` test calls `Substring` without checking the length first,
    and whose name search looks only among the seven candidates. */
module TwitchEn {
  import Text
  import opened Catalog
  import opened Cursor
  import opened Flags
  import opened Twitch

  /** The branch a normalised command takes. `Length` and `Substring` count
      UTF-16 code units: `Substring(0, 4)` throws on a command of fewer than
      four, and `Substring(0, 7)`, reached when the first four are not `SET `,
      on one of fewer than seven. */
  function ParseCommand(cmd: string): (c: Command)
    ensures c.Goto? ==> (cmd == "SET " + c.args && !c.submit) || (cmd == "SUBMIT " + c.args && c.submit)
    ensures c.Goto? <==>
      cmd !in Keywords && (Text.StartsWith(cmd, "SET ") || Text.StartsWith(cmd, "SUBMIT "))
    ensures c == Throws <==>
      && cmd !in Keywords
      && (|Text.Utf16(cmd)| < 4 || (!Text.StartsWith(cmd, "SET ") && |Text.Utf16(cmd)| < 7))
    ensures c == Ignored ==>
      |Text.Utf16(cmd)| >= 7 && !Text.StartsWith(cmd, "SET ") && !Text.StartsWith(cmd, "SUBMIT ")
  {
    var units := Text.Utf16(cmd);
    KeywordTests(cmd);
    if cmd == "SUBMIT" then SubmitCmd
    else if cmd == "LEFT" then LeftCmd
    else if cmd == "RIGHT" then RightCmd
    else if cmd == "CYCLE" then CycleCmd
    else if |units| < 4 then Throws
    else if units[..4] != Text.Utf16("SET ") && |units| < 7 then Throws
    else if units[..4] == Text.Utf16("SET ") || units[..7] == Text.Utf16("SUBMIT ") then
      Goto(if cmd[1] == 'E' then cmd[4..] else cmd[7..], cmd[1] == 'U')
    else Ignored
  }

  /** `Length` counts code units: "SET" followed by two characters outside
      the Basic Multilingual Plane is seven code units long, so neither
      `Substring` throws and the command is ignored. */
  lemma WideCharactersCountTwice()
    ensures ParseCommand("SET\U{1F642}\U{1F642}") == Ignored
  {
    var cmd := "SET\U{1F642}\U{1F642}";
    assert Text.Utf16(cmd[5..]) == [];
    assert Text.Utf16(cmd[4..]) == Text.CodeUnits(cmd[4]);
    assert Text.Utf16(cmd[3..]) == Text.CodeUnits(cmd[3]) + Text.Utf16(cmd[4..]);
    Text.BmpUtf16(cmd[..3]);
    assert cmd == cmd[..3] + cmd[3..];
    assert |Text.Utf16(cmd)| == 7 by {
      assert Text.Utf16(cmd) == Text.CodeUnits(cmd[0]) + Text.Utf16(cmd[1..]);
      assert Text.Utf16(cmd[1..]) == Text.CodeUnits(cmd[1]) + Text.Utf16(cmd[2..]);
      assert Text.Utf16(cmd[2..]) == Text.CodeUnits(cmd[2]) + Text.Utf16(cmd[3..]);
    }
    assert !Text.StartsWith(cmd, "SET ") by { assert cmd[3] != ' '; }
  }

  /** `SET ` followed by any text selects that text, without a submit. */
  lemma ParseSetCommand(args: string)
    ensures ParseCommand("SET " + args) == Goto(args, false)
  {
    var cmd := "SET " + args;
    assert cmd[0] == 'S' && cmd[1] == 'E';
    assert cmd[..4] == "SET ";
    assert cmd[4..] == args;
  }

  /** `SUBMIT ` followed by any text selects that text, then submits. */
  lemma ParseSubmitCommand(args: string)
    ensures ParseCommand("SUBMIT " + args) == Goto(args, true)
  {
    var cmd := "SUBMIT " + args;
    assert cmd[0] == 'S' && cmd[1] == 'U' && cmd[6] == ' ';
    assert cmd[..4] == "SUBM";
    assert cmd[..7] == "SUBMIT ";
    assert cmd[7..] == args;
  }

  /** What a command does, given the candidates' names, the cursor and whether
      the module still accepts input. A name is looked for among the
      candidates only. */
  function CommandEffect(cmd: Command, names: seq<string>, p0: int, live: bool): (e: Effect)
    requires |names| == Slots && 0 <= p0 < Slots
    ensures 0 <= e.position < Slots
    ensures e.completion == Threw <==> cmd == Throws
    ensures e.completion == NeverEnds ==> !live && cmd.Goto? && e.position == p0 && !e.submits
  {
    match cmd
    case Goto(args, submit) =>
      (match TargetIn(args, names)
       case Slot(i) => SlotEffect(i, p0, live, submit)
       case Named(n) =>
         if live then Effect(Completed, StepsRight(p0, Seek(names, p0, n, Slots)), submit)
         else if names[p0] == n then Effect(Completed, p0, submit)
         else Effect(NeverEnds, p0, false)
       case NoTarget => Effect(Completed, p0, submit))
    case _ => CommonEffect(cmd, p0, live)
  }

  /** While the module accepts input, `SET n` / `SUBMIT n` highlights slot `n`. */
  lemma SetDigitSelectsSlot(names: seq<string>, p0: int, i: int, submit: bool)
    requires |names| == Slots && 0 <= p0 < Slots && 0 <= i < Slots
    ensures CommandEffect(Goto([('1' as int + i) as char], submit), names, p0, true) == Effect(Completed, i, submit)
  {}

  /** While the module accepts input, `SUBMIT` with a candidate's name
      highlights that candidate and submits it. */
  lemma SubmitNameSelectsCandidate(names: seq<string>, p0: int, j: int)
    requires |names| == Slots && 0 <= p0 < Slots && 0 <= j < Slots
    requires forall a, b :: 0 <= a < b < Slots ==> names[a] != names[b]
    requires !(|names[j]| == 1 && '1' <= names[j][0] <= '7')
    ensures CommandEffect(Goto(names[j], true), names, p0, true) == Effect(Completed, j, true)
  {
    SeekFindsSlot(names, p0, j);
  }

  /** While the module accepts input, `SET` / `SUBMIT` with a name some
      candidate shows stops on the first slot to the right showing it. */
  lemma SetNameStopsOnFirstMatch(names: seq<string>, p0: int, name: string, submit: bool)
    requires |names| == Slots && 0 <= p0 < Slots && name in names
    requires !(|name| == 1 && '1' <= name[0] <= '7')
    ensures var e := CommandEffect(Goto(name, submit), names, p0, true);
      && e.completion == Completed && e.submits == submit
      && names[e.position] == name
      && forall k :: 0 <= k < Distance(p0, e.position) ==> names[StepsRight(p0, k)] != name
  {
    SeekFindsCandidate(names, p0, name);
    var steps := Seek(names, p0, name, Slots);
    DistanceOfSteps(p0, steps);
    forall k | 0 <= k < steps ensures names[StepsRight(p0, k)] != name {
      SeekMisses(names, p0, name, Slots, k);
    }
  }

  /** `SUBMIT` with an argument that designates nothing still presses submit,
      without moving the cursor. */
  lemma SubmitUnmatchedStillSubmits(names: seq<string>, p0: int, live: bool, args: string)
    requires |names| == Slots && 0 <= p0 < Slots
    requires TargetIn(args, names) == NoTarget
    ensures CommandEffect(ParseCommand("SUBMIT " + args), names, p0, live) == Effect(Completed, p0, true)
  {
    ParseSubmitCommand(args);
  }

  /** The command coroutine ends unless the module is solved; once it is, a
      slot or candidate other than the highlighted one is waited for forever. */
  lemma NeverEndsOnlyWhenSolved(cmd: Command, names: seq<string>, p0: int, live: bool)
    requires |names| == Slots && 0 <= p0 < Slots
    ensures CommandEffect(cmd, names, p0, live).completion == NeverEnds <==>
      && !live && cmd.Goto?
      && var t := TargetIn(cmd.args, names);
        (t.Slot? && t.index != p0) || (t.Named? && t.name != names[p0])
  {}

  /** The `SET ` / `SUBMIT ` branch: moves to the target, then submits if the
      command asks for it and the search ended. */
  method RunGoto(m: FlagsModule, args: string, submit: bool) returns (completion: Completion, verdict: Verdict)
    requires m.Valid()
    modifies m`position, m`canInteract
    ensures m.Valid()
    ensures var e := CommandEffect(Goto(args, submit), CandidateNames(m), old(m.position), old(m.canInteract));
      && completion == e.completion && m.position == e.position
      && Reported(m, e.submits, old(m.canInteract), verdict)
  {
    var names := UpperNames(m.catalog, m.countries);
    match TargetIn(args, names) {
      case Slot(i) =>
        var presses;
        completion, presses := SetToSlot(m, i);
      case Named(n) =>
        completion := SeekCandidate(m, n);
      case NoTarget =>
        completion := Completed;
    }
    verdict := NoVerdict;
    if completion == Completed && submit {
      verdict := m.OnSubmit();
    }
  }

  /** The English `ProcessTwitchCommand`, run to its end. */
  method ProcessTwitchCommand(m: FlagsModule, command: string) returns (completion: Completion, verdict: Verdict)
    requires m.Valid()
    modifies m`position, m`canInteract
    ensures m.Valid() && (old(m.OrderFollowsRules()) ==> m.OrderFollowsRules())
    ensures var e := CommandEffect(ParseCommand(Normalize(command)), CandidateNames(m), old(m.position), old(m.canInteract));
      && completion == e.completion && m.position == e.position
      && Reported(m, e.submits, old(m.canInteract), verdict)
  {
    completion, verdict := RunCommand(m, ParseCommand(Normalize(command)));
  }

  /** Runs a parsed command: the `SET ` / `SUBMIT ` branch or one of the
      others. */
  method RunCommand(m: FlagsModule, cmd: Command) returns (completion: Completion, verdict: Verdict)
    requires m.Valid()
    modifies m`position, m`canInteract
    ensures m.Valid() && (old(m.OrderFollowsRules()) ==> m.OrderFollowsRules())
    ensures var e := CommandEffect(cmd, CandidateNames(m), old(m.position), old(m.canInteract));
      && completion == e.completion && m.position == e.position
      && Reported(m, e.submits, old(m.canInteract), verdict)
  {
    if cmd.Goto? {
      completion, verdict := RunGoto(m, cmd.args, cmd.submit);
    } else {
      completion, verdict := RunCommon(m, cmd);
    }
  }
}
