/** `ProcessTwitchCommand` of the Polish module: the same chain as the English
    one, except that the `SET ` / `SUBMIT ` test checks the length before
    `Substring`, a name is looked up in the whole catalog, and the name search
    gives up after seven presses. */
module TwitchPl {
  import Text
  import opened Catalog
  import opened Cursor
  import opened Flags
  import opened Twitch
  import TwitchEn

  /** The branch a normalised command takes; `Length` (in UTF-16 code
      units) is checked before `Substring`, so no command makes it throw. */
  function ParseCommand(cmd: string): (c: Command)
    ensures c != Throws
    ensures c.Goto? ==> |c.args| > 0
    ensures c.Goto? ==> (cmd == "SET " + c.args && !c.submit) || (cmd == "SUBMIT " + c.args && c.submit)
    ensures c.Goto? <==>
      && cmd !in Keywords
      && ((|Text.Utf16(cmd)| > 4 && Text.StartsWith(cmd, "SET "))
          || (|Text.Utf16(cmd)| > 7 && Text.StartsWith(cmd, "SUBMIT ")))
  {
    var units := Text.Utf16(cmd);
    KeywordTests(cmd);
    LongerThanKeyword(cmd);
    if cmd == "SUBMIT" then SubmitCmd
    else if cmd == "LEFT" then LeftCmd
    else if cmd == "RIGHT" then RightCmd
    else if cmd == "CYCLE" then CycleCmd
    else if (|units| > 4 && units[..4] == Text.Utf16("SET "))
         || (|units| > 7 && units[..7] == Text.Utf16("SUBMIT ")) then
      Goto(if cmd[1] == 'E' then cmd[4..] else cmd[7..], cmd[1] == 'U')
    else Ignored
  }

  /** `SET ` followed by a non-empty text selects that text, without a submit. */
  lemma ParseSetCommand(args: string)
    requires |args| > 0
    ensures ParseCommand("SET " + args) == Goto(args, false)
  {
    var cmd := "SET " + args;
    assert cmd[0] == 'S' && cmd[1] == 'E';
    assert cmd[..4] == "SET ";
    assert cmd[4..] == args;
  }

  /** `SUBMIT ` followed by a non-empty text selects that text, then submits. */
  lemma ParseSubmitCommand(args: string)
    requires |args| > 0
    ensures ParseCommand("SUBMIT " + args) == Goto(args, true)
  {
    var cmd := "SUBMIT " + args;
    assert cmd[0] == 'S' && cmd[1] == 'U' && cmd[6] == ' ';
    assert cmd[..4] == "SUBM";
    assert cmd[..7] == "SUBMIT ";
    assert cmd[7..] == args;
  }

  /** On a command that does not end in white space, as every normalised one,
      the two parsers agree, except that where the English one throws the
      Polish one ignores the command. */
  lemma ParsersAgree(cmd: string)
    requires cmd == [] || !Text.IsWhiteSpace(cmd[|cmd| - 1])
    ensures ParseCommand(cmd) == if TwitchEn.ParseCommand(cmd) == Throws then Ignored else TwitchEn.ParseCommand(cmd)
  {
    if |cmd| == 4 || |cmd| == 7 {
      assert cmd[|cmd| - 1] == cmd[..|cmd|][|cmd| - 1];
    }
  }

  /** What a command does, given the upper-cased names of the whole catalog
      (`known`), the candidates' names, the cursor and whether the module still
      accepts input. */
  function CommandEffect(cmd: Command, known: seq<string>, names: seq<string>, p0: int, live: bool): (e: Effect)
    requires |names| == Slots && 0 <= p0 < Slots
    ensures 0 <= e.position < Slots
    ensures e.completion != Threw || cmd == Throws
    ensures e.completion == NeverEnds ==> !live && cmd.Goto? && TargetIn(cmd.args, known).Slot?
  {
    match cmd
    case Goto(args, submit) =>
      (match TargetIn(args, known)
       case Slot(i) => SlotEffect(i, p0, live, submit)
       case Named(n) => Effect(Completed, if live then StepsRight(p0, Seek(names, p0, n, Slots)) else p0, submit)
       case NoTarget => Effect(Completed, p0, submit))
    case _ => CommonEffect(cmd, p0, live)
  }

  /** A catalog name that no candidate shows sends the cursor once around:
      it ends where it started. */
  lemma UnknownNameReturns(known: seq<string>, names: seq<string>, p0: int, live: bool, args: string, submit: bool)
    requires |names| == Slots && 0 <= p0 < Slots
    requires args in known && args !in names && !(|args| == 1 && '1' <= args[0] <= '7')
    ensures CommandEffect(Goto(args, submit), known, names, p0, live) == Effect(Completed, p0, submit)
  {
    SeekAbsent(names, p0, args, Slots);
  }

  /** Where the English coroutine ends, the Polish one has the same effect;
      where the English one throws, the Polish one ignores the command; and the
      Polish one never ends only where the English one never ends. */
  lemma {:induction false} EffectsAgree(cmd: Command, known: seq<string>, names: seq<string>, p0: int, live: bool)
    requires |names| == Slots && 0 <= p0 < Slots
    requires forall i :: 0 <= i < Slots ==> names[i] in known
    ensures var en := TwitchEn.CommandEffect(cmd, names, p0, live);
      var pl := CommandEffect(cmd, known, names, p0, live);
      && (en.completion == Completed ==> pl == en)
      && (cmd == Throws ==> pl == Effect(Threw, p0, false) == en)
      && (pl.completion == NeverEnds ==> en == pl)
  {
    if cmd.Goto? {
      var args := cmd.args;
      if !TargetIn(args, names).Slot? && args in known && args !in names && live {
        SeekAbsent(names, p0, args, Slots);
      }
    }
  }

  /** On any chat command the Polish module behaves as the English one where
      the English coroutine ends, ignores the command where it throws, and
      never ends only where the English one never ends either. */
  lemma PolishRefinesEnglish(raw: string, known: seq<string>, names: seq<string>, p0: int, live: bool)
    requires |names| == Slots && 0 <= p0 < Slots
    requires forall i :: 0 <= i < Slots ==> names[i] in known
    ensures var en := TwitchEn.CommandEffect(TwitchEn.ParseCommand(Normalize(raw)), names, p0, live);
      var pl := CommandEffect(ParseCommand(Normalize(raw)), known, names, p0, live);
      && (en.completion == Completed ==> pl == en)
      && (en.completion == Threw ==> pl == Effect(Completed, p0, false))
      && (pl.completion == NeverEnds ==> en == pl)
  {
    var cmd := Normalize(raw);
    ParsersAgree(cmd);
    var e := TwitchEn.ParseCommand(cmd);
    if e == Throws {
      assert ParseCommand(cmd) == Ignored;
      assert CommandEffect(Ignored, known, names, p0, live) == Effect(Completed, p0, false);
    } else {
      EffectsAgree(e, known, names, p0, live);
    }
  }

  /** On a module in play, a chat command the English `ProcessTwitchCommand`
      runs to its end has the same effect in the Polish one. */
  lemma ModulesAgree(m: FlagsModule, raw: string)
    requires m.Valid()
    ensures var names := CandidateNames(m);
      var en := TwitchEn.CommandEffect(TwitchEn.ParseCommand(Normalize(raw)), names, m.position, m.canInteract);
      var pl := CommandEffect(ParseCommand(Normalize(raw)), AllUpperNames(m.catalog), names, m.position, m.canInteract);
      && (en.completion == Completed ==> pl == en)
      && (en.completion == Threw ==> pl == Effect(Completed, m.position, false))
      && (pl.completion == NeverEnds ==> en == pl)
  {
    CandidatesAreKnown(m);
    PolishRefinesEnglish(raw, AllUpperNames(m.catalog), CandidateNames(m), m.position, m.canInteract);
  }

  /** The `SET ` / `SUBMIT ` branch: moves to the target, then submits if the
      command asks for it and the search ended. */
  method RunGoto(m: FlagsModule, args: string, submit: bool) returns (completion: Completion, verdict: Verdict)
    requires m.Valid()
    modifies m`position, m`canInteract
    ensures m.Valid()
    ensures var e := CommandEffect(Goto(args, submit), AllUpperNames(m.catalog), CandidateNames(m), old(m.position), old(m.canInteract));
      && completion == e.completion && m.position == e.position
      && Reported(m, e.submits, old(m.canInteract), verdict)
  {
    match TargetIn(args, AllUpperNames(m.catalog)) {
      case Slot(i) =>
        var presses;
        completion, presses := SetToSlot(m, i);
      case Named(n) =>
        var presses := SeekBounded(m, n);
        completion := Completed;
      case NoTarget =>
        completion := Completed;
    }
    verdict := NoVerdict;
    if completion == Completed && submit {
      verdict := m.OnSubmit();
    }
  }

  /** The Polish `ProcessTwitchCommand`, run to its end. */
  method ProcessTwitchCommand(m: FlagsModule, command: string) returns (completion: Completion, verdict: Verdict)
    requires m.Valid()
    modifies m`position, m`canInteract
    ensures m.Valid() && (old(m.OrderFollowsRules()) ==> m.OrderFollowsRules())
    ensures var e := CommandEffect(ParseCommand(Normalize(command)), AllUpperNames(m.catalog), CandidateNames(m), old(m.position), old(m.canInteract));
      && completion == e.completion && m.position == e.position
      && Reported(m, e.submits, old(m.canInteract), verdict)
  {
    completion, verdict := RunCommand(m, ParseCommand(Normalize(command)));
  }

  /** Runs a parsed command: the `SET ` / `SUBMIT ` branch or one of the
      others. */
  method RunCommand(m: FlagsModule, cmd: Command) returns (completion: Completion, verdict: Verdict)
    requires m.Valid()
    modifies m`position, m`canInteract
    ensures m.Valid() && (old(m.OrderFollowsRules()) ==> m.OrderFollowsRules())
    ensures var e := CommandEffect(cmd, AllUpperNames(m.catalog), CandidateNames(m), old(m.position), old(m.canInteract));
      && completion == e.completion && m.position == e.position
      && Reported(m, e.submits, old(m.canInteract), verdict)
  {
    if cmd.Goto? {
      completion, verdict := RunGoto(m, cmd.args, cmd.submit);
    } else {
      completion, verdict := RunCommon(m, cmd);
    }
  }
}
