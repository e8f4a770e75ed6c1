/**
 * src/ct.py: the two cell rules of the Connecticut table, `add_prefix` for
 * the notice link and `parse_warn_date`, which cuts a "received" marker out
 * of the date cell. In this version the marker is chosen by six successive
 * checks, each overriding the one before, and a marker that does not occur
 * is an error.
 */
module Ct {
  import opened Wrappers
  import opened PyStr

  /** The folder the table's relative notice links point into. */
  const BaseUrl: string := "https://www.ctdol.state.ct.us/progsupt/bussrvce/warnreports/"

  /** `add_prefix`: a link is made absolute under `BaseUrl`; a missing link stays missing. */
  function AddPrefix(link: Option<string>): (r: Option<string>)
    ensures r.None? <==> link.None?
    ensures r.Some? ==> StartsWith(r.value, BaseUrl) && r.value[|BaseUrl|..] == link.value
  {
    if link.Some? then Some(BaseUrl + link.value) else None
  }

  /** Different links stay different once prefixed. */
  lemma AddPrefixInjective(a: Option<string>, b: Option<string>)
    requires AddPrefix(a) == AddPrefix(b)
    ensures a == b
  {
    if a.Some? && b.Some? {
      assert a.value == AddPrefix(a).value[|BaseUrl|..];
    }
  }

  // ---------------------------------------------------------------- parse_warn_date

  /** The marker used when no other one occurs. */
  const DefaultPin: string := "Rec'd"

  /** The markers checked after the default, in order; each one present overrides those before it. */
  const OverridePins: seq<string> := ["Rec\U{2019}d", "Recd", "Received", "Revised", "Not Dated Rec'd"]

  /** All six markers in the order build/lib/ct.py lists them. */
  const Pins: seq<string> := [DefaultPin] + OverridePins

  /** The last of the first `n` override markers present in `date`, or the default when none is. */
  function LastPresent(date: string, n: nat): string
    requires n <= |OverridePins|
  {
    if n == 0 then DefaultPin
    else if Contains(date, OverridePins[n - 1]) then OverridePins[n - 1]
    else LastPresent(date, n - 1)
  }

  /** The marker `parse_warn_date` settles on. */
  function ChosenPin(date: string): string {
    LastPresent(date, |OverridePins|)
  }

  /**
   * The marker is the default exactly when none of the first `n` overrides
   * occurs; otherwise it is an override that occurs, with none after it
   * occurring.
   */
  lemma {:induction false} LastPresentSpec(date: string, n: nat)
    requires n <= |OverridePins|
    ensures var p := LastPresent(date, n);
      (p == DefaultPin && forall j :: 0 <= j < n ==> !Contains(date, OverridePins[j])) ||
      (exists k :: 0 <= k < n && p == OverridePins[k] && Contains(date, p) &&
         forall j :: k < j < n ==> !Contains(date, OverridePins[j]))
  {
    if n > 0 && !Contains(date, OverridePins[n - 1]) {
      LastPresentSpec(date, n - 1);
    }
  }

  /** The last override marker present wins; the default stands only when no override occurs. */
  lemma ChosenPinSpec(date: string)
    ensures var p := ChosenPin(date);
      (p == DefaultPin && forall j :: 0 <= j < |OverridePins| ==> !Contains(date, OverridePins[j])) ||
      (exists k :: 0 <= k < |OverridePins| && p == OverridePins[k] && Contains(date, p) &&
         forall j :: k < j < |OverridePins| ==> !Contains(date, OverridePins[j]))
  {
    LastPresentSpec(date, |OverridePins|);
  }

  /** "Not Dated Rec'd", checked last, wins whenever it occurs. */
  lemma NotDatedWins(date: string)
    requires Contains(date, "Not Dated Rec'd")
    ensures ChosenPin(date) == "Not Dated Rec'd"
  {
  }

  /**
   * What `parse_warn_date` returns: the text after the first occurrence of
   * the chosen marker, untrimmed, or the error `date.index` raises when the
   * marker does not occur.
   */
  function ParseWarnDateSpec(date: string): (r: Result<string, string>)
    ensures r.Ok? <==> Contains(date, ChosenPin(date))
    ensures r.Ok? ==>
      EndsWith(date, r.value) && Find(date, ChosenPin(date)) == Some(|date| - |r.value| - |ChosenPin(date)|)
  {
    var pin := ChosenPin(date);
    match Find(date, pin)
    case None => Err("substring not found")
    case Some(start) => Ok(date[start + |pin|..])
  }

  /**
   * `parse_warn_date`: the marker is overwritten by each check that
   * succeeds, then the text after its first occurrence is sliced off.
   */
  method ParseWarnDate(date: string) returns (r: Result<string, string>)
    ensures r == ParseWarnDateSpec(date)
  {
    var pin := "Rec'd";
    assert pin == LastPresent(date, 0);
    if Contains(date, "Rec\U{2019}d") {
      pin := "Rec\U{2019}d";
    }
    assert pin == LastPresent(date, 1);
    if Contains(date, "Recd") {
      pin := "Recd";
    }
    assert pin == LastPresent(date, 2);
    if Contains(date, "Received") {
      pin := "Received";
    }
    assert pin == LastPresent(date, 3);
    if Contains(date, "Revised") {
      pin := "Revised";
    }
    assert pin == LastPresent(date, 4);
    if Contains(date, "Not Dated Rec'd") {
      pin := "Not Dated Rec'd";
    }
    assert pin == ChosenPin(date);
    var start := Find(date, pin);
    if start.None? {
      return Err("substring not found");
    }
    r := Ok(date[start.value + |pin|..]);
  }

  /** The date is rejected exactly when none of the six markers occurs in it. */
  lemma ParseWarnDateFails(date: string)
    ensures ParseWarnDateSpec(date).Err? <==> forall k :: 0 <= k < |Pins| ==> !Contains(date, Pins[k])
  {
    ChosenPinSpec(date);
    if ParseWarnDateSpec(date).Err? {
      forall k | 0 <= k < |Pins| ensures !Contains(date, Pins[k]) {
        if k > 0 {
          assert Pins[k] == OverridePins[k - 1];
        }
      }
    } else {
      var p := ChosenPin(date);
      if p == DefaultPin {
        assert Pins[0] == p;
      } else {
        var k :| 0 <= k < |OverridePins| && p == OverridePins[k];
        assert Pins[k + 1] == p;
      }
    }
  }
}
