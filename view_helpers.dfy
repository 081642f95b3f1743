/**
 * Two helpers of the views (ViewHelpers.cs): the race and body the user's
 * settings choose, and the text a progress report shows.
 */
module ViewHelpers {
  import opened Wrappers
  import opened Decimal

  /** The `Default_Race` setting, told apart by the four values it is compared with. */
  datatype RaceSetting = HyurMidlander | HyurHighlander | AuRaRaen | AuRaXaela | OtherRace

  const DefaultBody := "0001"
  const XaelaBody := "0101"

  /** GetUserRace (ViewHelpers.cs:141-185): the race code and body id for a setting and gender. */
  function GetUserRace(setting: RaceSetting, gender: int): (r: (string, string))
    ensures |r.0| == 4 && |r.1| == 4
    ensures r.1 == XaelaBody <==> setting == AuRaXaela
  {
    match setting
    case HyurMidlander => if gender == 0 then ("0101", DefaultBody) else ("0201", DefaultBody)
    case HyurHighlander => if gender == 0 then ("0301", DefaultBody) else ("0401", DefaultBody)
    case AuRaRaen => if gender == 0 then ("1301", DefaultBody) else ("1401", DefaultBody)
    case AuRaXaela => if gender == 0 then ("1301", XaelaBody) else ("1401", XaelaBody)
    case OtherRace => ("0201", DefaultBody)
  }

  /** Race codes of the male variants among those GetUserRace returns. */
  predicate IsMaleCode(code: string) {
    code == "0101" || code == "0301" || code == "1301"
  }

  /**
   * Only Xaela use the other body; for each named race the gender picks
   * the male or female code of that race; any other setting gives the
   * female Midlander whatever the gender.
   */
  lemma GetUserRaceSpec(setting: RaceSetting, gender: int)
    ensures var (race, body) := GetUserRace(setting, gender);
            && (body == XaelaBody <==> setting == AuRaXaela)
            && (body == DefaultBody <==> setting != AuRaXaela)
            && (setting != OtherRace ==> (IsMaleCode(race) <==> gender == 0))
            && (setting == OtherRace ==> race == "0201")
            && ((setting == AuRaRaen || setting == AuRaXaela) ==> race[..2] == "13" || race[..2] == "14")
  {
  }

  /**
   * Raen and Xaela share their race codes and differ only in the body;
   * a male Midlander setting with another gender gives what any
   * unrecognised setting gives.
   */
  lemma RaceCodesShared(gender: int)
    ensures GetUserRace(AuRaRaen, gender).0 == GetUserRace(AuRaXaela, gender).0
    ensures GetUserRace(AuRaRaen, gender).1 != GetUserRace(AuRaXaela, gender).1
    ensures gender != 0 ==> GetUserRace(HyurMidlander, gender) == GetUserRace(OtherRace, gender)
  {
  }

  /** The localised message, or the stand-by text when there is none. */
  function ProgressHead(message: string, standBy: string, localize: string -> string): string {
    if message != "" then localize(message) else standBy
  }

  /** The counter a determinate report appends to its message. */
  function ProgressSuffix(current: int, total: int): string {
    "\n\n " + FormatInt(current) + "/" + FormatInt(total)
  }

  /**
   * The text of a progress report (ViewHelpers.cs:33-55): the localised
   * message, or the stand-by text for an empty one, with the counter when
   * the total is positive.
   */
  function ProgressMessage(current: int, total: int, message: string, standBy: string,
                           localize: string -> string): (r: string)
    ensures var head := ProgressHead(message, standBy, localize);
            && |head| <= |r| && r[..|head|] == head
            && (|r| > |head| <==> total > 0)
  {
    var head := ProgressHead(message, standBy, localize);
    if total > 0 then head + ProgressSuffix(current, total) else head
  }

  /** The position of the last `/`, if any. */
  function LastSlash(s: string): (r: int)
    ensures -1 <= r < |s|
    ensures r >= 0 ==> s[r] == '/'
    ensures forall i :: r < i < |s| ==> s[i] != '/'
  {
    if s == [] then -1
    else if s[|s| - 1] == '/' then |s| - 1
    else LastSlash(s[..|s| - 1])
  }

  /** The last `/` of `a + "/" + b` is the one between them when `b` has none. */
  lemma {:induction false} LastSlashBefore(a: string, b: string)
    requires '/' !in b
    ensures LastSlash(a + "/" + b) == |a|
  {
    if b != [] {
      var m := a + "/" + b;
      assert m[|m| - 1] == b[|b| - 1];
      assert m[..|m| - 1] == a + "/" + b[..|b| - 1];
      LastSlashBefore(a, b[..|b| - 1]);
    } else {
      assert a + "/" + b == a + ['/'];
    }
  }

  /**
   * Both counts can be read back from a text that ends in the counter,
   * whatever comes before it: the total follows the last `/`, the current
   * count sits between the blank line and that `/`.
   */
  lemma {:induction false} SuffixReadBack(head: string, current: int, total: int)
    requires Int32Min <= total <= Int32Max && Int32Min <= current <= Int32Max
    ensures var m := head + ProgressSuffix(current, total);
            var k := LastSlash(m);
            && |head| + 3 <= k
            && m[..|head| + 3] == head + "\n\n "
            && ParseInt(m[k + 1..]) == Some(total)
            && ParseInt(m[|head| + 3..k]) == Some(current)
  {
    var c := FormatInt(current);
    var t := FormatInt(total);
    var a := head + "\n\n " + c;
    var m := head + ProgressSuffix(current, total);
    assert m == a + "/" + t;
    LastSlashBefore(a, t);
    assert m[|a| + 1..] == t;
    assert m[..|head| + 3] == head + "\n\n ";
    assert m[|head| + 3..|a|] == c;
    ParseFormatRoundTrip(total);
    ParseFormatRoundTrip(current);
  }

  /**
   * A report's text is the message or the stand-by text, followed by the
   * counter exactly when the total is positive (and then both counts read
   * back from it, by SuffixReadBack).
   */
  lemma ProgressMessageSpec(current: int, total: int, message: string, standBy: string,
                            localize: string -> string)
    ensures var m := ProgressMessage(current, total, message, standBy, localize);
            var head := ProgressHead(message, standBy, localize);
            && |head| <= |m| && m[..|head|] == head
            && (|m| == |head| <==> total <= 0)
            && (total > 0 ==> m[|head|..] == ProgressSuffix(current, total))
            && (message == "" ==> head == standBy)
  {
  }

  /** What a progress dialog shows: its message and whether its bar is indeterminate. */
  class ProgressController {
    var message: string
    var indeterminate: bool

    constructor()
      ensures message == "" && !indeterminate
    {
      message := "";
      indeterminate := false;
    }

    /**
     * The action BindReportProgressAction binds: builds the message, sets
     * the bar determinate when the total is positive and indeterminate
     * otherwise, then shows the message.
     */
    method ReportProgress(current: int, total: int, reportMessage: string, standBy: string,
                          localize: string -> string)
      modifies this
      ensures message == ProgressMessage(current, total, reportMessage, standBy, localize)
      ensures indeterminate <==> total <= 0
    {
      var text := "";
      if reportMessage != "" {
        text := localize(reportMessage);
      } else {
        text := standBy;
      }
      if total > 0 {
        indeterminate := false;
        text := text + ProgressSuffix(current, total);
      } else {
        indeterminate := true;
      }
      message := text;
    }
  }
}
