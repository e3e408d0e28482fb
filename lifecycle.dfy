/**
 * The status lifecycle: the table of allowed status transitions and the
 * check that an identity may move from its current status to a new one,
 * including the five-year wait before an inactive identity is archived.
 *
 * Statuses are stored as free text, so the check takes strings; the
 * `Status` datatype is the typed view of the five known statuses, and
 * `CanFollow` is the transition table stated over it.
 */
module Lifecycle {
  import opened Wrappers

  datatype Status = Pending | Active | Suspended | Inactive | Archived

  function Name(s: Status): string {
    match s
    case Pending => "Pending"
    case Active => "Active"
    case Suspended => "Suspended"
    case Inactive => "Inactive"
    case Archived => "Archived"
  }

  /** The status a stored text denotes, if any: the exact inverse of `Name`. */
  function ParseStatus(text: string): (r: Option<Status>)
    ensures r.Some? ==> Name(r.value) == text
    ensures forall s :: Name(s) == text ==> r == Some(s)
  {
    match text
    case "Pending" => Some(Pending)
    case "Active" => Some(Active)
    case "Suspended" => Some(Suspended)
    case "Inactive" => Some(Inactive)
    case "Archived" => Some(Archived)
    case _ => None
  }

  /** The allowed transitions as stored text: each known status and the statuses it may move to. */
  const ValidTransitions: map<string, seq<string>> := map[
    "Pending" := ["Active"],
    "Active" := ["Suspended", "Inactive"],
    "Suspended" := ["Active", "Inactive"],
    "Inactive" := ["Archived"],
    "Archived" := []
  ]

  /** The lifecycle's transition relation over the typed statuses. */
  predicate CanFollow(from: Status, to: Status) {
    match from
    case Pending => to == Active
    case Active => to == Suspended || to == Inactive
    case Suspended => to == Active || to == Inactive
    case Inactive => to == Archived
    case Archived => false
  }

  /** A point in time, in microseconds (the resolution of the stored timestamps). */
  type Instant = int

  const MicrosPerDay: int := 86_400_000_000

  /** How long an identity must have been Inactive before it may be archived. */
  const ArchiveAfterDays: int := 365 * 5

  /** Whole days from `since` to `now`, rounded down as a time difference's day count is. */
  function ElapsedDays(since: Instant, now: Instant): int {
    (now - since) / MicrosPerDay
  }

  /**
   * The five-year gate refuses exactly when the status-changed timestamp is
   * present (non-empty), parses, and fewer than `ArchiveAfterDays` whole days
   * have passed since it; a missing or unparsable timestamp does not refuse.
   */
  predicate GateBlocks(since: Option<string>, now: Instant, parseIso: string -> Option<Instant>) {
    && since.Some? && since.value != ""
    && parseIso(since.value).Some?
    && ElapsedDays(parseIso(since.value).value, now) < ArchiveAfterDays
  }

  /**
   * May an identity whose status is `current`, set at `since`, move to
   * `target` at time `now`? `parseIso` reads a stored timestamp.
   */
  function IsValidTransition(current: string, target: string, since: Option<string>,
                             now: Instant, parseIso: string -> Option<Instant>): (ok: bool)
    ensures current == target ==> ok
    ensures ok && current != target ==> current in ValidTransitions && target in ValidTransitions[current]
  {
    if current == target then true
    else if current !in ValidTransitions then false
    else if target !in ValidTransitions[current] then false
    else if current == "Inactive" && target == "Archived" then
      !GateBlocks(since, now, parseIso)
    else true
  }

  /** The stored table and the typed relation agree, edge for edge. */
  lemma TableMatchesRelation(from: string, to: string)
    ensures from in ValidTransitions && to in ValidTransitions[from]
        <==> ParseStatus(from).Some? && ParseStatus(to).Some?
             && CanFollow(ParseStatus(from).value, ParseStatus(to).value)
  {
  }

  /**
   * The whole check in terms of the typed relation: a change of status is
   * allowed exactly when both texts name statuses, the relation has the edge,
   * and, for Inactive to Archived, the gate does not block.
   */
  lemma TransitionCharacterized(current: string, target: string, since: Option<string>,
                                now: Instant, parseIso: string -> Option<Instant>)
    requires current != target
    ensures IsValidTransition(current, target, since, now, parseIso)
        <==> && ParseStatus(current).Some? && ParseStatus(target).Some?
             && CanFollow(ParseStatus(current).value, ParseStatus(target).value)
             && (ParseStatus(current).value == Inactive ==> !GateBlocks(since, now, parseIso))
  {
    TableMatchesRelation(current, target);
  }

  /** Nothing leaves Archived. */
  lemma ArchivedIsFinal(target: string, since: Option<string>, now: Instant, parseIso: string -> Option<Instant>)
    ensures IsValidTransition("Archived", target, since, now, parseIso) <==> target == "Archived"
  {
  }

  /** Pending moves only to Active. */
  lemma PendingOnlyToActive(target: string, since: Option<string>, now: Instant, parseIso: string -> Option<Instant>)
    ensures IsValidTransition("Pending", target, since, now, parseIso) <==> target == "Pending" || target == "Active"
  {
  }

  /** Inactive to Archived is refused exactly when the gate blocks. */
  lemma ArchiveGate(since: Option<string>, now: Instant, parseIso: string -> Option<Instant>)
    ensures !IsValidTransition("Inactive", "Archived", since, now, parseIso) <==> GateBlocks(since, now, parseIso)
  {
  }

  /**
   * Counting whole days loses nothing at the gate: it blocks exactly when
   * less than 1825 days of time have passed since the parsed timestamp.
   */
  lemma GateInRawTime(since: Option<string>, now: Instant, parseIso: string -> Option<Instant>)
    ensures GateBlocks(since, now, parseIso)
        <==> && since.Some? && since.value != "" && parseIso(since.value).Some?
             && now - parseIso(since.value).value < ArchiveAfterDays * MicrosPerDay
  {
    if since.Some? && since.value != "" && parseIso(since.value).Some? {
      var d := now - parseIso(since.value).value;
      var q := d / MicrosPerDay;
      assert d == q * MicrosPerDay + d % MicrosPerDay;
      assert 0 <= d % MicrosPerDay < MicrosPerDay;
      if q < ArchiveAfterDays {
        assert q * MicrosPerDay <= (ArchiveAfterDays - 1) * MicrosPerDay;
      } else {
        assert q * MicrosPerDay >= ArchiveAfterDays * MicrosPerDay;
      }
    }
  }
}
