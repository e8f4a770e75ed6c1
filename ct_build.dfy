/**
 * build/lib/ct.py: the packaged copy of the Connecticut cell rules. Its
 * `add_prefix` is the same as in src/ct.py (`Ct.AddPrefix`); its
 * `parse_warn_date` walks the list of markers and stops at the first one
 * the date holds, trims what follows it, and hands a date without any
 * marker back unchanged.
 */
module CtBuild {
  import opened Wrappers
  import opened PyStr
  import Ct

  /** The first marker at list position `from` or later that the date holds. */
  function FirstPinFrom(date: string, from: nat): (r: Option<nat>)
    requires from <= |Ct.Pins|
    decreases |Ct.Pins| - from
    ensures r.Some? ==> from <= r.value < |Ct.Pins| && Contains(date, Ct.Pins[r.value])
    ensures r.Some? ==> forall j :: from <= j < r.value ==> !Contains(date, Ct.Pins[j])
    ensures r.None? ==> forall j :: from <= j < |Ct.Pins| ==> !Contains(date, Ct.Pins[j])
  {
    if from == |Ct.Pins| then None
    else if Contains(date, Ct.Pins[from]) then Some(from)
    else FirstPinFrom(date, from + 1)
  }

  /**
   * What `parse_warn_date` returns: the trimmed text after the first
   * occurrence of the first marker in list order that the date holds, or
   * the date itself when it holds none.
   */
  function ParseWarnDateSpec(date: string): (r: string)
    ensures FirstPinFrom(date, 0).None? ==> r == date
    ensures FirstPinFrom(date, 0).Some? ==>
      Strip(r) == r && |r| <= |date| - |Ct.Pins[FirstPinFrom(date, 0).value]|
    ensures FirstPinFrom(date, 0).Some? ==>
      var pin := Ct.Pins[FirstPinFrom(date, 0).value];
      forall i :: FirstOccurrence(date, pin, i) ==> r == Strip(date[i + |pin|..])
  {
    match FirstPinFrom(date, 0)
    case None => date
    case Some(k) =>
      var pin := Ct.Pins[k];
      var start := Find(date, pin).value;
      StripCharsIdempotent(date[start + |pin|..], Whitespace);
      FindSpec(date, pin);
      assert forall i :: FirstOccurrence(date, pin, i) ==> i == start by {
        forall i | FirstOccurrence(date, pin, i) ensures i == start {
          FindFirst(date, pin, i);
        }
      }
      Strip(date[start + |pin|..])
  }

  /** `parse_warn_date`: the loop over the markers, returning at the first one the date holds. */
  method ParseWarnDate(date: string) returns (r: string)
    ensures r == ParseWarnDateSpec(date)
  {
    var pins := ["Rec'd", "Rec\U{2019}d", "Recd", "Received", "Revised", "Not Dated Rec'd"];
    assert pins == Ct.Pins;
    for k := 0 to |pins|
      invariant forall j :: 0 <= j < k ==> !Contains(date, pins[j])
    {
      var pin := pins[k];
      if Contains(date, pin) {
        assert FirstPinFrom(date, 0) == Some(k);
        var start := Find(date, pin).value;
        return Strip(date[start + |pin|..]);
      }
    }
    return date;
  }

  // ---------------------------------------------------------------- properties

  /** "Rec'd" comes first in the list: a date holding it is cut there, whatever else it holds. */
  lemma DefaultPinFirst(date: string)
    requires Contains(date, Ct.DefaultPin)
    ensures FirstPinFrom(date, 0) == Some(0)
  {
  }

  /**
   * "Not Dated Rec'd" ends with "Rec'd", so a date holding it holds "Rec'd"
   * too: the last marker of the list is never the one chosen.
   */
  lemma NotDatedNeverChosen(date: string)
    ensures FirstPinFrom(date, 0) != Some(|Ct.Pins| - 1)
  {
    var nd := Ct.Pins[|Ct.Pins| - 1];
    if Contains(date, nd) {
      FindSpec(date, nd);
      var i := Find(date, nd).value;
      assert date[i + 10..i + 15] == nd[10..15];
      assert OccursAt(date, Ct.DefaultPin, i + 10);
      ContainsAt(date, Ct.DefaultPin, i + 10);
    }
  }

  /**
   * The two versions fail on the same dates: src/ct.py raises exactly when
   * this version hands the date back unchanged for want of a marker.
   */
  lemma FailsWhereSourceRaises(date: string)
    ensures Ct.ParseWarnDateSpec(date).Err? <==> FirstPinFrom(date, 0).None?
  {
    Ct.ParseWarnDateFails(date);
  }

  /**
   * Where both versions settle on the same marker, this one returns what
   * src/ct.py returns, trimmed.
   */
  lemma TrimmedWhenSamePin(date: string)
    requires FirstPinFrom(date, 0).Some?
    requires Ct.ChosenPin(date) == Ct.Pins[FirstPinFrom(date, 0).value]
    ensures Ct.ParseWarnDateSpec(date).Ok? && ParseWarnDateSpec(date) == Strip(Ct.ParseWarnDateSpec(date).value)
  {
    var pin := Ct.ChosenPin(date);
    var start := Find(date, pin).value;
    assert Ct.ParseWarnDateSpec(date) == Ok(date[start + |pin|..]);
  }
}
