/** cmd/activity.go: the activity record of the create command's CSV file,
    how it is shown in messages, and the checks it must pass before being
    created or sent as an update. */
module Activities {
  import opened Base

  /** One row of the create/update CSV file. `id` stays 0 until the service
      has created the activity. */
  datatype Activity = Activity(
    id: int,
    start: Time,
    activityType: string,
    name: string,
    description: string,
    duration: int,
    distance: real,
    private: bool,
    commute: bool,
    trainer: bool)

  /** How an activity is named in messages: "[<name> on <day>]", with
      " (ID=<id>)" before the closing bracket once it has an ID. */
  function String(a: Activity, fmt: Formats): (s: string)
    ensures |s| >= 2 && s[0] == '[' && s[|s| - 1] == ']'
    ensures var base := "[" + a.name + " on " + fmt.day(a.start);
      if a.id == 0 then s == base + "]" else s == base + " (ID=" + Decimal(a.id) + ")]"
  {
    var s := a.name + " on " + fmt.day(a.start);
    var s := if a.id != 0 then s + " (ID=" + Decimal(a.id) + ")" else s;
    "[" + s + "]"
  }

  /** Two rows that differ only in their ID are told apart by their message
      text exactly when their IDs differ; in particular a row without an ID
      never reads like one with an ID. */
  lemma StringTellsIDsApart(a: Activity, b: Activity, fmt: Formats)
    requires a.(id := 0) == b.(id := 0)
    ensures String(a, fmt) == String(b, fmt) <==> a.id == b.id
  {
    var base := "[" + a.name + " on " + fmt.day(a.start);
    var sa, sb := String(a, fmt), String(b, fmt);
    if a.id != 0 && b.id != 0 && sa == sb {
      var da, db := Decimal(a.id), Decimal(b.id);
      assert sa[|base| + 5..|sa| - 2] == da;
      assert sb[|base| + 5..|sb| - 2] == db;
      DecimalInjective(a.id, b.id);
    }
  }

  /** Checks that a row can be sent as a new manually entered activity. */
  function VerifyForCreate(a: Activity): (r: Outcome)
    ensures r == Pass <==> !a.start.IsZero() && a.name != "" && !a.private
    ensures r == Fail(MissingStart) <==> a.start.IsZero()
    ensures r == Fail(MissingName) <==> !a.start.IsZero() && a.name == ""
    ensures r == Fail(CantSetPrivate) <==> !a.start.IsZero() && a.name != "" && a.private
  {
    if a.start.IsZero() then Fail(MissingStart)
    else if a.name == "" then Fail(MissingName)
    else if a.private then Fail(CantSetPrivate)
    else Pass
  }

  /** The fields the service does not let an update change, with the names
      the update check uses for them, in the order it checks them. */
  predicate SameStart(a: Activity, prev: Activity) { a.start.Equal(prev.start) }

  predicate SameLocked(a: Activity, prev: Activity) {
    a.duration == prev.duration && a.distance == prev.distance && a.private == prev.private
  }

  /** The first locked field (after Start and Description) that a changes. */
  function LockedChange(a: Activity, prev: Activity): (r: Outcome)
    ensures r == Pass <==> SameLocked(a, prev)
    ensures r.Fail? ==> r.error in {CantModify("Duration"), CantModify("Distance"), CantModify("Private")}
    ensures a.duration != prev.duration ==> r == Fail(CantModify("Duration"))
    ensures a.duration == prev.duration && a.distance != prev.distance ==> r == Fail(CantModify("Distance"))
    ensures a.duration == prev.duration && a.distance == prev.distance && a.private != prev.private ==>
      r == Fail(CantModify("Private"))
  {
    if a.duration != prev.duration then Fail(CantModify("Duration"))
    else if a.distance != prev.distance then Fail(CantModify("Distance"))
    else if a.private != prev.private then Fail(CantModify("Private"))
    else Pass
  }

  /** Checks that a row can be sent as an update of prev, as written: the
      Description test `a.Description != "" || a.Description != prev.Description`
      passes only when both descriptions are empty. */
  function VerifyForUpdate(a: Activity, prev: Activity): (r: Outcome)
    ensures r == Pass <==>
      a.id != 0 && SameStart(a, prev) && a.description == "" && prev.description == "" && SameLocked(a, prev)
    ensures a.id == 0 ==> r == Fail(IDNotSet)
    ensures a.id != 0 && !SameStart(a, prev) ==> r == Fail(CantModify("Start"))
    ensures a.id != 0 && SameStart(a, prev) && (a.description != "" || prev.description != "") ==>
      r == Fail(CantModify("Description"))
    ensures a.id != 0 && SameStart(a, prev) && a.description == "" && prev.description == "" ==>
      r == LockedChange(a, prev)
  {
    if a.id == 0 then Fail(IDNotSet)
    else if !a.start.Equal(prev.start) then Fail(CantModify("Start"))
    else if a.description != "" || a.description != prev.description then Fail(CantModify("Description"))
    else LockedChange(a, prev)
  }

  /** The Description test as written rejects a row whose non-empty
      Description was left exactly as it was. */
  lemma UnchangedDescriptionRejected(a: Activity)
    requires a.id != 0 && a.description != ""
    ensures VerifyForUpdate(a, a) == Fail(CantModify("Description"))
  {
  }

  /** The evidently intended update check: Description, like Start, Duration,
      Distance and Private, may not be changed, but may be left as it is. */
  function VerifyForUpdateIntended(a: Activity, prev: Activity): (r: Outcome)
    ensures r == Pass <==>
      a.id != 0 && SameStart(a, prev) && a.description == prev.description && SameLocked(a, prev)
    ensures a.id == 0 ==> r == Fail(IDNotSet)
    ensures a.id != 0 && !SameStart(a, prev) ==> r == Fail(CantModify("Start"))
    ensures a.id != 0 && SameStart(a, prev) && a.description != prev.description ==>
      r == Fail(CantModify("Description"))
    ensures a.id != 0 && SameStart(a, prev) && a.description == prev.description ==>
      r == LockedChange(a, prev)
  {
    if a.id == 0 then Fail(IDNotSet)
    else if !a.start.Equal(prev.start) then Fail(CantModify("Start"))
    else if a.description != prev.description then Fail(CantModify("Description"))
    else LockedChange(a, prev)
  }

  /** The corrected check accepts every unchanged row that has an ID, whatever
      its Description. */
  lemma IntendedAcceptsUnchangedRows(a: Activity)
    requires a.id != 0
    ensures VerifyForUpdateIntended(a, a) == Pass
  {
  }

  /** A row that differs from prev only in the editable fields (Name, Type,
      Commute, Trainer). */
  predicate EditsOnly(a: Activity, prev: Activity) {
    a.(name := prev.name, activityType := prev.activityType, commute := prev.commute, trainer := prev.trainer) == prev
  }

  /** An edit of Name, Type, Commute or Trainer passes the check as written
      when the row has an ID and no Description... */
  lemma EditsPassAsWritten(a: Activity, prev: Activity)
    requires EditsOnly(a, prev) && a.id != 0 && a.description == ""
    ensures VerifyForUpdate(a, prev) == Pass
  {
    assert a.start == prev.start && a.duration == prev.duration;
  }

  /** ...and passes the corrected check whatever the Description. */
  lemma EditsPassIntended(a: Activity, prev: Activity)
    requires EditsOnly(a, prev) && a.id != 0
    ensures VerifyForUpdateIntended(a, prev) == Pass
  {
    assert a.start == prev.start && a.description == prev.description;
  }

  /** Where the two checks differ: only on rows that keep a non-empty
      Description, which the check as written refuses and the corrected one
      judges on the remaining fields. */
  lemma ChecksDifferOnlyOnKeptDescriptions(a: Activity, prev: Activity)
    ensures VerifyForUpdate(a, prev) != VerifyForUpdateIntended(a, prev) ==>
      a.id != 0 && SameStart(a, prev) && a.description == prev.description && a.description != "" &&
      VerifyForUpdate(a, prev) == Fail(CantModify("Description"))
  {
  }
}
