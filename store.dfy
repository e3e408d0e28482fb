/**
 * Editing a stored identity: the record may not be archived, a requested
 * status change must pass the lifecycle check, each editable column whose
 * submitted text differs from the stored text is overwritten (a status
 * change also stamps `status_changed_at`), and one audit entry per change is
 * appended, all with one timestamp.
 *
 * The People table is a map from identity number to row and the Audit table
 * a sequence of entries; an edit is one atomic step on both. The clock comes
 * in as parameters: `now` for the lifecycle check, `statusStamp` and
 * `auditStamp` for the ISO texts written to `status_changed_at` and to the
 * audit entries.
 */
module Store {
  import opened Wrappers
  import opened Records
  import opened Lifecycle

  /** The columns an edit may change, in the order it applies them. */
  const Editable: seq<string> := [
    "first_name", "last_name", "status", "national_id", "diploma_type", "diploma_year",
    "entry_year", "faculty_rank", "primary_department", "staff_department", "job_title", "staff_entry_date"
  ]

  /** The submitted form: the fields present in the request and their texts. */
  type Form = map<string, string>

  /** `request.form.get(f)`. */
  function FormGet(form: Form, f: string): Option<string> {
    if f in form then Some(form[f]) else None
  }

  /** `str(v)` of a submitted value: a missing field reads as "None". */
  function Str(v: Option<string>): string {
    match v
    case None => "None"
    case Some(s) => s
  }

  /** The stored value an edit compares with and records as the old value: NULL reads as "". */
  function Stored(row: Row, f: string): string {
    match Col(row, f)
    case None => ""
    case Some(s) => s
  }

  /** One staged change: the column, the stored text before, and the submitted value written. */
  datatype Change = Change(field: string, was: string, now: Option<string>)

  /** One row of the Audit table. */
  datatype AuditEntry = AuditEntry(personId: string, changedAt: string, field: string, oldValue: string, newValue: Option<string>)

  /** Why an edit was refused. */
  datatype Rejection =
    | ArchivedRecord
      /** Inactive to Archived before five years, with the whole days elapsed so far. */
    | ArchiveTooEarly(elapsedDays: int)
    | NotAllowed(from: Option<string>, to: string)

  datatype EditOutcome = NotFound | Rejected(reason: Rejection) | Updated(changes: seq<Change>)

  /** The submitted value of column `f` differs from the stored one, compared as text. */
  predicate Differs(row: Row, form: Form, f: string) {
    Str(FormGet(form, f)) != Stored(row, f)
  }

  /** The changes an edit stages, one per column of `fields` whose text differs, in the order of `fields`. */
  function Diff(row: Row, form: Form, fields: seq<string>): seq<Change> {
    if fields == [] then []
    else
      var f := fields[|fields| - 1];
      Diff(row, form, fields[..|fields| - 1])
      + (if Differs(row, form, f) then [Change(f, Stored(row, f), FormGet(form, f))] else [])
  }

  /** The row after setting column `f` to `value`; setting the status also stamps `status_changed_at`. */
  function Written(row: Row, f: string, value: Option<string>, statusStamp: string): Row {
    var r := row[f := value];
    if f == "status" then r["status_changed_at" := Some(statusStamp)] else r
  }

  /** The row after writing `changes` in order. */
  function Apply(row: Row, changes: seq<Change>, statusStamp: string): Row {
    if changes == [] then row
    else
      var c := changes[|changes| - 1];
      Written(Apply(row, changes[..|changes| - 1], statusStamp), c.field, c.now, statusStamp)
  }

  function Entry(uid: string, auditStamp: string, c: Change): AuditEntry {
    AuditEntry(uid, auditStamp, c.field, c.was, c.now)
  }

  /** The audit entries recording `changes`, in order, all stamped `auditStamp`. */
  function AuditRows(uid: string, auditStamp: string, changes: seq<Change>): seq<AuditEntry> {
    if changes == [] then []
    else AuditRows(uid, auditStamp, changes[..|changes| - 1]) + [Entry(uid, auditStamp, changes[|changes| - 1])]
  }

  /**
   * What an edit of `row` does: refuse an archived record; refuse a
   * non-empty submitted status that differs from the stored one when the
   * lifecycle check fails (a NULL stored status fails it); otherwise stage
   * the differing editable columns.
   */
  function Decide(row: Row, form: Form, now: Instant, parseIso: string -> Option<Instant>): EditOutcome {
    var current, target := Col(row, "status"), FormGet(form, "status");
    if current == Some("Archived") then Rejected(ArchivedRecord)
    else if && target.Some? && target.value != "" && target != current
            && !(current.Some? && IsValidTransition(current.value, target.value, Col(row, "status_changed_at"), now, parseIso))
    then
      if current == Some("Inactive") && target.value == "Archived" then
        Rejected(ArchiveTooEarly(ElapsedDays(parseIso(Col(row, "status_changed_at").value).value, now)))
      else Rejected(NotAllowed(current, target.value))
    else Updated(Diff(row, form, Editable))
  }

  /** Each column appears at most once. */
  predicate Distinct(fields: seq<string>) {
    forall i, j | 0 <= i < j < |fields| :: fields[i] != fields[j]
  }

  class Store {
    /** The People table, by identity number. */
    var people: map<string, Row>
    /** The Audit table, oldest entry first. */
    var audit: seq<AuditEntry>

    /**
     * Every stored row carries every column, so a `None` read with `Col`
     * always stands for SQL NULL and never for a column the row lacks
     * (reading a missing column of a stored row is an error in the source).
     */
    predicate Valid()
      reads this
    {
      forall uid | uid in people :: IsRow(people[uid])
    }

    constructor (rows: map<string, Row>)
      requires forall uid | uid in rows :: IsRow(rows[uid])
      ensures Valid()
      ensures people == rows && audit == []
    {
      people := rows;
      audit := [];
    }

    /**
     * The POST of the edit form for identity `uid`: the outcome is `Decide`'s;
     * an update writes the staged changes into the row and appends their
     * audit entries; anything else leaves both tables as they were.
     */
    method Edit(uid: string, form: Form, now: Instant, parseIso: string -> Option<Instant>,
                statusStamp: string, auditStamp: string) returns (outcome: EditOutcome)
      requires Valid()
      modifies this
      ensures Valid()
      ensures uid !in old(people) ==> outcome == NotFound
      ensures uid in old(people) ==> outcome == Decide(old(people)[uid], form, now, parseIso)
      ensures outcome.Updated? ==>
        && people == old(people)[uid := Apply(old(people)[uid], outcome.changes, statusStamp)]
        && audit == old(audit) + AuditRows(uid, auditStamp, outcome.changes)
      ensures !outcome.Updated? ==> people == old(people) && audit == old(audit)
    {
      if uid !in people {
        return NotFound;
      }
      var person := people[uid];
      var current := Col(person, "status");
      if current == Some("Archived") {
        return Rejected(ArchivedRecord);
      }
      var target := FormGet(form, "status");
      if target.Some? && target.value != "" && target != current {
        if !(current.Some? && IsValidTransition(current.value, target.value, Col(person, "status_changed_at"), now, parseIso)) {
          if current == Some("Inactive") && target.value == "Archived" {
            var since := parseIso(Col(person, "status_changed_at").value).value;
            return Rejected(ArchiveTooEarly(ElapsedDays(since, now)));
          }
          return Rejected(NotAllowed(current, target.value));
        }
      }

      assert Decide(person, form, now, parseIso) == Updated(Diff(person, form, Editable));
      var changes := StageChanges(uid, form, Editable, statusStamp);
      if changes != [] {
        AppendAudit(uid, auditStamp, changes);
      }
      return Updated(changes);
    }

    /**
     * The first loop of an edit: compares each column of `fields` (the
     * editable columns, when editing) of the stored row `uid` with the
     * submitted text and writes those that differ.
     */
    method StageChanges(uid: string, form: Form, fields: seq<string>, statusStamp: string) returns (changes: seq<Change>)
      requires Valid() && uid in people
      modifies this
      ensures Valid()
      ensures changes == Diff(old(people)[uid], form, fields)
      ensures people == old(people)[uid := Apply(old(people)[uid], changes, statusStamp)]
      ensures audit == old(audit)
    {
      var person := people[uid];
      changes := [];
      var n := 0;
      while n < |fields|
        invariant 0 <= n <= |fields|
        invariant Valid()
        invariant changes == Diff(person, form, fields[..n])
        invariant people == old(people)[uid := Apply(person, changes, statusStamp)]
        invariant audit == old(audit)
      {
        DiffStep(person, form, fields, n);
        ghost var row := Apply(person, changes, statusStamp);
        changes := StageColumn(uid, person, form, fields[n], changes, statusStamp);
        UpdateTwice(old(people), uid, row, Apply(person, changes, statusStamp));
        n := n + 1;
      }
      assert fields[..|fields|] == fields;
    }

    /**
     * One step of the first loop: column `f` of the stored row `person`,
     * whose earlier `changes` row `uid` already holds, is written and staged
     * when its submitted text differs.
     */
    method StageColumn(uid: string, person: Row, form: Form, f: string, changes: seq<Change>, statusStamp: string)
      returns (staged: seq<Change>)
      requires Valid() && uid in people && people[uid] == Apply(person, changes, statusStamp)
      modifies this
      ensures Valid()
      ensures staged == changes + if Differs(person, form, f) then [Change(f, Stored(person, f), FormGet(form, f))] else []
      ensures people == old(people)[uid := Apply(person, staged, statusStamp)]
      ensures audit == old(audit)
    {
      var submitted := FormGet(form, f);
      var was := Stored(person, f);
      if Str(submitted) != was {
        ApplyStep(person, changes, Change(f, was, submitted), statusStamp);
        Write(uid, f, submitted, statusStamp);
        staged := changes + [Change(f, was, submitted)];
      } else {
        staged := changes;
        assert people == old(people)[uid := people[uid]];
      }
    }

    /** The UPDATE of one column of row `uid`; updating the status also stamps `status_changed_at`. */
    method Write(uid: string, f: string, value: Option<string>, statusStamp: string)
      requires Valid() && uid in people
      modifies this
      ensures Valid()
      ensures people == old(people)[uid := Written(old(people)[uid], f, value, statusStamp)]
      ensures audit == old(audit)
    {
      var row := people[uid][f := value];
      if f == "status" {
        row := row["status_changed_at" := Some(statusStamp)];
      }
      people := people[uid := row];
    }

    /** The second loop of an edit: one audit entry per change, all stamped `auditStamp`. */
    method AppendAudit(uid: string, auditStamp: string, changes: seq<Change>)
      requires Valid()
      modifies this
      ensures Valid()
      ensures people == old(people)
      ensures audit == old(audit) + AuditRows(uid, auditStamp, changes)
    {
      var i := 0;
      while i < |changes|
        invariant 0 <= i <= |changes|
        invariant people == old(people)
        invariant audit == old(audit) + AuditRows(uid, auditStamp, changes[..i])
      {
        assert changes[..i + 1][..i] == changes[..i];
        audit := audit + [Entry(uid, auditStamp, changes[i])];
        i := i + 1;
      }
      assert changes[..|changes|] == changes;
    }
  }

  // ---------------------------------------------------------------------
  // What an edit writes.

  /** Writing changes never removes a column. */
  lemma {:induction false} ApplyKeepsColumns(row: Row, changes: seq<Change>, statusStamp: string)
    ensures row.Keys <= Apply(row, changes, statusStamp).Keys
  {
    if changes != [] {
      ApplyKeepsColumns(row, changes[..|changes| - 1], statusStamp);
    }
  }

  /** The changes staged for `a + b` are those for `a` followed by those for `b`: staging keeps the column order. */
  lemma {:induction false} DiffAppend(row: Row, form: Form, a: seq<string>, b: seq<string>)
    ensures Diff(row, form, a + b) == Diff(row, form, a) + Diff(row, form, b)
  {
    if b == [] {
      assert a + b == a;
    } else {
      var init, f := b[..|b| - 1], b[|b| - 1];
      DiffAppend(row, form, a, init);
      assert b == init + [f];
      DiffAppendSnoc(row, form, a, init, f);
    }
  }

  /** The inductive step of `DiffAppend`. */
  lemma DiffAppendSnoc(row: Row, form: Form, a: seq<string>, init: seq<string>, f: string)
    requires Diff(row, form, a + init) == Diff(row, form, a) + Diff(row, form, init)
    ensures Diff(row, form, a + (init + [f])) == Diff(row, form, a) + Diff(row, form, init + [f])
  {
    var ext := if Differs(row, form, f) then [Change(f, Stored(row, f), FormGet(form, f))] else [];
    var da, di := Diff(row, form, a), Diff(row, form, init);
    assert a + (init + [f]) == (a + init) + [f];
    DiffSnoc(row, form, a + init, f);
    DiffSnoc(row, form, init, f);
    ConcatAssoc(da, di, ext);
  }

  /**
   * A change is staged exactly for a column of `fields` whose submitted text
   * differs, and records the stored text and the submitted value of that column.
   */
  lemma {:induction false} DiffMembership(row: Row, form: Form, fields: seq<string>, c: Change)
    ensures c in Diff(row, form, fields) <==>
      && c.field in fields && Differs(row, form, c.field)
      && c.was == Stored(row, c.field) && c.now == FormGet(form, c.field)
  {
    if fields != [] {
      var init := fields[..|fields| - 1];
      DiffMembership(row, form, init, c);
      assert fields == init + [fields[|fields| - 1]];
    }
  }

  /** Over distinct columns, each column is staged at most once. */
  lemma {:induction false} DiffDistinct(row: Row, form: Form, fields: seq<string>)
    requires Distinct(fields)
    ensures var d := Diff(row, form, fields);
      forall i, j | 0 <= i < j < |d| :: d[i].field != d[j].field
  {
    if fields != [] {
      var init, f := fields[..|fields| - 1], fields[|fields| - 1];
      DiffDistinct(row, form, init);
      var d, e := Diff(row, form, fields), Diff(row, form, init);
      if Differs(row, form, f) {
        forall i | 0 <= i < |e| ensures e[i].field != f {
          DiffMembership(row, form, init, e[i]);
        }
        assert d == e + [Change(f, Stored(row, f), FormGet(form, f))];
      }
    }
  }

  /**
   * Column `c` after the staged changes are written: the submitted value for
   * a staged column, the status stamp for `status_changed_at` when the status
   * was staged, and the stored value otherwise.
   */
  lemma {:induction false} EditedColumn(row: Row, form: Form, fields: seq<string>, statusStamp: string, c: string)
    requires "status_changed_at" !in fields
    ensures Col(Apply(row, Diff(row, form, fields), statusStamp), c) ==
      if c in fields && Differs(row, form, c) then FormGet(form, c)
      else if c == "status_changed_at" && "status" in fields && Differs(row, form, "status") then Some(statusStamp)
      else Col(row, c)
  {
    if fields != [] {
      var init, f := fields[..|fields| - 1], fields[|fields| - 1];
      assert fields == init + [f];
      EditedColumn(row, form, init, statusStamp, c);
      var d := Diff(row, form, init);
      if Differs(row, form, f) {
        var ch := Change(f, Stored(row, f), FormGet(form, f));
        assert Diff(row, form, fields) == d + [ch];
        ApplyOne(row, d, ch, statusStamp, c);
      } else {
        assert Diff(row, form, fields) == d;
      }
    }
  }

  lemma ConcatAssoc(x: seq<Change>, y: seq<Change>, z: seq<Change>)
    ensures (x + y) + z == x + (y + z)
  {
  }

  /** Staging one more column. */
  lemma DiffSnoc(row: Row, form: Form, fields: seq<string>, f: string)
    ensures Diff(row, form, fields + [f]) == Diff(row, form, fields)
      + (if Differs(row, form, f) then [Change(f, Stored(row, f), FormGet(form, f))] else [])
  {
    assert (fields + [f])[..|fields|] == fields;
  }

  /** Staging one more column of `fields`. */
  lemma DiffStep(row: Row, form: Form, fields: seq<string>, n: nat)
    requires n < |fields|
    ensures Diff(row, form, fields[..n + 1]) == Diff(row, form, fields[..n])
      + (if Differs(row, form, fields[n]) then [Change(fields[n], Stored(row, fields[n]), FormGet(form, fields[n]))] else [])
  {
    assert fields[..n + 1][..n] == fields[..n];
  }

  /** Updating a key twice keeps the second value. */
  lemma UpdateTwice(m: map<string, Row>, k: string, a: Row, b: Row)
    ensures m[k := a][k := b] == m[k := b]
  {
  }

  /** Writing one more change. */
  lemma ApplyStep(row: Row, changes: seq<Change>, ch: Change, statusStamp: string)
    ensures Apply(row, changes + [ch], statusStamp) == Written(Apply(row, changes, statusStamp), ch.field, ch.now, statusStamp)
  {
    assert (changes + [ch])[..|changes|] == changes;
  }

  /** Writing one more change sets its column, and the status stamp when it is the status. */
  lemma ApplyOne(row: Row, changes: seq<Change>, ch: Change, statusStamp: string, c: string)
    ensures Col(Apply(row, changes + [ch], statusStamp), c) ==
      if ch.field == "status" && c == "status_changed_at" then Some(statusStamp)
      else if c == ch.field then ch.now
      else Col(Apply(row, changes, statusStamp), c)
  {
    assert (changes + [ch])[..|changes|] == changes;
  }

  /**
   * The audit entries of an edit: one per staged change, for identity `uid`,
   * all with the same timestamp, carrying the column, the stored text and the
   * submitted value; in the order of the changes.
   */
  lemma {:induction false} AuditRowsRecordChanges(uid: string, auditStamp: string, changes: seq<Change>)
    ensures |AuditRows(uid, auditStamp, changes)| == |changes|
    ensures forall i | 0 <= i < |changes| ::
      AuditRows(uid, auditStamp, changes)[i] == AuditEntry(uid, auditStamp, changes[i].field, changes[i].was, changes[i].now)
  {
    if changes != [] {
      AuditRowsRecordChanges(uid, auditStamp, changes[..|changes| - 1]);
    }
  }

  // ---------------------------------------------------------------------
  // The editable columns.

  lemma EditableColumns()
    ensures "status" in Editable && "status_changed_at" !in Editable
    ensures Distinct(Editable)
    ensures forall f | f in Editable :: f in Columns
  {
  }

  /** The changes of an accepted edit are those staged over the editable columns. */
  lemma DecidedChanges(row: Row, form: Form, now: Instant, parseIso: string -> Option<Instant>)
    requires Decide(row, form, now, parseIso).Updated?
    ensures Decide(row, form, now, parseIso).changes == Diff(row, form, Editable)
  {
  }

  // ---------------------------------------------------------------------
  // What an edit decides.

  /** An archived record is never edited, whatever is submitted. */
  lemma ArchivedNeverEdited(row: Row, form: Form, now: Instant, parseIso: string -> Option<Instant>)
    requires Col(row, "status") == Some("Archived")
    ensures Decide(row, form, now, parseIso) == Rejected(ArchivedRecord)
  {
  }

  /**
   * An edit of a record that is not archived is refused exactly when a
   * non-empty status is submitted that differs from the stored one and the
   * lifecycle check refuses it (a NULL stored status is refused); the refusal
   * names the five-year wait, with the days elapsed, for Inactive to
   * Archived, and the two statuses otherwise.
   */
  lemma RefusedExactlyByLifecycle(row: Row, form: Form, now: Instant, parseIso: string -> Option<Instant>)
    requires Col(row, "status") != Some("Archived")
    ensures var current, target, since := Col(row, "status"), FormGet(form, "status"), Col(row, "status_changed_at");
      && (Decide(row, form, now, parseIso).Rejected? <==>
            && target.Some? && target.value != "" && target != current
            && !(current.Some? && IsValidTransition(current.value, target.value, since, now, parseIso)))
      && (Decide(row, form, now, parseIso).Rejected? && current == Some("Inactive") && target == Some("Archived") ==>
            && GateBlocks(since, now, parseIso)
            && Decide(row, form, now, parseIso) == Rejected(ArchiveTooEarly(ElapsedDays(parseIso(since.value).value, now)))
            && Decide(row, form, now, parseIso).reason.elapsedDays < ArchiveAfterDays)
      && (Decide(row, form, now, parseIso).Rejected? && !(current == Some("Inactive") && target == Some("Archived")) ==>
            Decide(row, form, now, parseIso) == Rejected(NotAllowed(current, target.value)))
  {
  }

  /**
   * An accepted edit writes exactly the editable columns whose submitted
   * text differs, stamps `status_changed_at` exactly when the status is among
   * them, and leaves every other column as it was.
   */
  lemma AcceptedEditWrites(row: Row, form: Form, now: Instant, parseIso: string -> Option<Instant>, statusStamp: string, c: string)
    requires Decide(row, form, now, parseIso).Updated?
    ensures var edited := Apply(row, Decide(row, form, now, parseIso).changes, statusStamp);
      Col(edited, c) ==
        if c in Editable && Differs(row, form, c) then FormGet(form, c)
        else if c == "status_changed_at" && Differs(row, form, "status") then Some(statusStamp)
        else Col(row, c)
  {
    DecidedChanges(row, form, now, parseIso);
    assert "status" in Editable && "status_changed_at" !in Editable;
    EditedColumn(row, form, Editable, statusStamp, c);
  }

  /**
   * The audit entries of an accepted edit: an entry for each editable column
   * whose text differs and for no other, each naming the identity, sharing
   * one timestamp, and holding the stored text and the submitted value; no
   * column has two entries.
   */
  lemma AcceptedEditAudit(uid: string, row: Row, form: Form, now: Instant, parseIso: string -> Option<Instant>,
                          auditStamp: string, e: AuditEntry)
    requires Decide(row, form, now, parseIso).Updated?
    ensures var entries := AuditRows(uid, auditStamp, Decide(row, form, now, parseIso).changes);
      && (forall i, j | 0 <= i < j < |entries| :: entries[i].field != entries[j].field)
      && (e in entries <==>
            && e.personId == uid && e.changedAt == auditStamp
            && e.field in Editable && Differs(row, form, e.field)
            && e.oldValue == Stored(row, e.field) && e.newValue == FormGet(form, e.field))
  {
    DecidedChanges(row, form, now, parseIso);
    EditableColumns();
    AuditOfDiff(uid, row, form, Editable, auditStamp, e);
  }

  /** `AcceptedEditAudit` over any distinct columns. */
  lemma AuditOfDiff(uid: string, row: Row, form: Form, fields: seq<string>, auditStamp: string, e: AuditEntry)
    requires Distinct(fields)
    ensures var entries := AuditRows(uid, auditStamp, Diff(row, form, fields));
      && (forall i, j | 0 <= i < j < |entries| :: entries[i].field != entries[j].field)
      && (e in entries <==>
            && e.personId == uid && e.changedAt == auditStamp
            && e.field in fields && Differs(row, form, e.field)
            && e.oldValue == Stored(row, e.field) && e.newValue == FormGet(form, e.field))
  {
    var changes := Diff(row, form, fields);
    DiffDistinct(row, form, fields);
    AuditRowsRecordChanges(uid, auditStamp, changes);
    var c := Change(e.field, e.oldValue, e.newValue);
    DiffMembership(row, form, fields, c);
    var entries := AuditRows(uid, auditStamp, changes);
    if e in entries {
      var i :| 0 <= i < |entries| && entries[i] == e;
      assert changes[i] == c;
    }
    if c in changes && e.personId == uid && e.changedAt == auditStamp {
      var i :| 0 <= i < |changes| && changes[i] == c;
      assert entries[i] == e;
    }
  }

  /**
   * As written, the lifecycle check runs only for a non-empty submitted
   * status: a form without a status, or with an empty one, passes and writes
   * NULL (resp. the empty text) into `status` of any record that is not archived.
   */
  lemma MissingStatusSkipsLifecycle(row: Row, form: Form, now: Instant, parseIso: string -> Option<Instant>, statusStamp: string)
    requires Col(row, "status") != Some("Archived")
    requires FormGet(form, "status") in {None, Some("")}
    requires Differs(row, form, "status")
    ensures Decide(row, form, now, parseIso).Updated?
    ensures Col(Apply(row, Decide(row, form, now, parseIso).changes, statusStamp), "status") == FormGet(form, "status")
  {
    AcceptedEditWrites(row, form, now, parseIso, statusStamp, "status");
  }

  /** An Active record asked to become Archived is refused: Archived is not among Active's successors. */
  lemma ActiveCannotBeArchived(row: Row, form: Form, now: Instant, parseIso: string -> Option<Instant>)
    requires Col(row, "status") == Some("Active") && FormGet(form, "status") == Some("Archived")
    ensures Decide(row, form, now, parseIso) == Rejected(NotAllowed(Some("Active"), "Archived"))
  {
  }

  /**
   * An Inactive record whose status was set at least five years (1825 days)
   * ago may be archived: the edit is accepted, the status becomes Archived and
   * `status_changed_at` is refreshed.
   */
  lemma ArchiveAfterFiveYears(row: Row, form: Form, now: Instant, parseIso: string -> Option<Instant>, statusStamp: string, since: Instant)
    requires Col(row, "status") == Some("Inactive") && FormGet(form, "status") == Some("Archived")
    requires Col(row, "status_changed_at").Some? && parseIso(Col(row, "status_changed_at").value) == Some(since)
    requires now - since >= ArchiveAfterDays * MicrosPerDay
    ensures Decide(row, form, now, parseIso).Updated?
    ensures var edited := Apply(row, Decide(row, form, now, parseIso).changes, statusStamp);
      Col(edited, "status") == Some("Archived") && Col(edited, "status_changed_at") == Some(statusStamp)
  {
    GateInRawTime(Col(row, "status_changed_at"), now, parseIso);
    assert IsValidTransition("Inactive", "Archived", Col(row, "status_changed_at"), now, parseIso);
    assert Differs(row, form, "status");
    AcceptedEditWrites(row, form, now, parseIso, statusStamp, "status");
    AcceptedEditWrites(row, form, now, parseIso, statusStamp, "status_changed_at");
  }
}
