/**
 * The command dispatcher of Assets/Scripts/Actions.cs: the first keyword of
 * a ten-entry table that occurs in the message is selected and matched
 * against a switch whose cases all do nothing.
 */
module Actions {
  import opened Options
  import opened OpiText

  datatype Command =
    | GetRes | Image | Present | SetBackground | BinFixation | BinPresent
    | MonoBackgroundAdd | MonoSetBackground | MonoPresent | SetFovY

  /** The keyword table, in the order it is scanned. */
  const Keywords: seq<string> := [
    "OPI_GET_RES", "OPI_IMAGE", "OPI_PRESENT", "OPI_SET_BGROUND", "OPI_BIN_FIXATION",
    "OPI_BIN_PRESENT", "OPI_MONO_BG_ADD", "OPI_MONO_SET_BG", "OPI_MONO_PRESENT", "OPI_SET_FOVY"]

  datatype Outcome =
      /** No keyword occurs: the "not recognized" error is logged. */
    | NotRecognized
      /** The switch case for the command was taken; every case is empty. */
    | CaseTaken(command: Command)
      /** The switch's `default` branch. */
    | SwitchDefault

  /** The switch: the case whose label equals the selected keyword, or None for `default`. */
  function SwitchCase(keyword: string): Option<Command> {
    if keyword == "OPI_GET_RES" then Some(GetRes)
    else if keyword == "OPI_IMAGE" then Some(Image)
    else if keyword == "OPI_PRESENT" then Some(Present)
    else if keyword == "OPI_SET_BGROUND" then Some(SetBackground)
    else if keyword == "OPI_BIN_FIXATION" then Some(BinFixation)
    else if keyword == "OPI_BIN_PRESENT" then Some(BinPresent)
    else if keyword == "OPI_MONO_BG_ADD" then Some(MonoBackgroundAdd)
    else if keyword == "OPI_MONO_SET_BG" then Some(MonoSetBackground)
    else if keyword == "OPI_MONO_PRESENT" then Some(MonoPresent)
    else if keyword == "OPI_SET_FOVY" then Some(SetFovY)
    else None
  }

  /** The case each keyword of the table is matched to. */
  const Commands: seq<Command> := [
    GetRes, Image, Present, SetBackground, BinFixation,
    BinPresent, MonoBackgroundAdd, MonoSetBackground, MonoPresent, SetFovY]

  /** The position of a command in the table. */
  function Position(c: Command): (k: nat)
    ensures k < |Commands| && Commands[k] == c
  {
    match c
    case GetRes => 0
    case Image => 1
    case Present => 2
    case SetBackground => 3
    case BinFixation => 4
    case BinPresent => 5
    case MonoBackgroundAdd => 6
    case MonoSetBackground => 7
    case MonoPresent => 8
    case SetFovY => 9
  }

  /** Every keyword of the table has a case, and it is the command at the same position. */
  lemma EveryKeywordHasACase(k: nat)
    requires k < |Keywords|
    ensures SwitchCase(Keywords[k]) == Some(Commands[k])
    ensures Position(Commands[k]) == k
  {
    if k < 5 {
      if k == 0 {} else if k == 1 {} else if k == 2 {} else if k == 3 {} else {}
    } else {
      if k == 5 {} else if k == 6 {} else if k == 7 {} else if k == 8 {} else {}
    }
  }

  /** `ProcessMessage`: selection by the first contained keyword, then the switch. */
  function ProcessMessage(message: string): Outcome {
    match FirstMatch(Keywords, message)
    case None => NotRecognized
    case Some(k) =>
      match SwitchCase(Keywords[k])
      case None => SwitchDefault
      case Some(c) => CaseTaken(c)
  }

  /** The `default` branch of the switch is never taken. */
  lemma DefaultUnreachable(message: string)
    ensures ProcessMessage(message) != SwitchDefault
  {
    match FirstMatch(Keywords, message)
    case None =>
    case Some(k) => EveryKeywordHasACase(k);
  }

  /** A message is not recognized, and nothing else happens, exactly when it contains no keyword. */
  lemma NotRecognizedIffNoKeyword(message: string)
    ensures ProcessMessage(message) == NotRecognized <==>
              forall k :: 0 <= k < |Keywords| ==> !Contains(message, Keywords[k])
  {
    FirstMatchSpec(Keywords, message);
    match FirstMatch(Keywords, message)
    case None =>
    case Some(k) => EveryKeywordHasACase(k);
  }

  /** The case taken is that of the first keyword, in table order, that occurs in the message. */
  lemma CaseOfFirstKeyword(message: string, k: nat)
    requires k < |Keywords|
    ensures ProcessMessage(message) == CaseTaken(Commands[k]) <==>
              Contains(message, Keywords[k]) && forall j :: 0 <= j < k ==> !Contains(message, Keywords[j])
  {
    FirstMatchIs(Keywords, message, k);
    EveryKeywordHasACase(k);
    match FirstMatch(Keywords, message)
    case None =>
    case Some(i) =>
      EveryKeywordHasACase(i);
      if ProcessMessage(message) == CaseTaken(Commands[k]) {
        assert Commands[i] == Commands[k];
        assert Position(Commands[i]) == i;
      }
  }

  /** `OPI_CLOSE` is not in this table: the bare keyword is not recognized. */
  lemma CloseIsNotRecognized()
    ensures ProcessMessage("OPI_CLOSE") == NotRecognized
  {
    var m := "OPI_CLOSE";
    forall k | 0 <= k < |Keywords|
      ensures !Contains(m, Keywords[k])
    {
      if k == 1 {
        assert m[..9] != Keywords[1] by { assert m[4] != Keywords[1][4]; }
        LongerNeverContained(m[1..], Keywords[1]);
      } else {
        LongerNeverContained(m, Keywords[k]);
      }
    }
    NotRecognizedIffNoKeyword(m);
  }
}
