/** The `_DateTime` column type (`app/models.py`): every timestamp is stored
    in UTC, and every timestamp read back is tagged as UTC.

    A timestamp is its wall-clock reading in seconds, with the offset of its
    zone from UTC in seconds when it is zone-aware (`tzinfo is not None`)
    and no offset when it is naive. `None` stands for SQL NULL. */
module UtcDateTime {
  import opened Common

  datatype DateTime = DateTime(wall: int, offset: Option<int>) {
    predicate IsAware() { offset.Some? }
    predicate IsUtc() { offset == Some(0) }
    /** The instant an aware value denotes: its wall clock moved back by its offset. */
    function Instant(): int
      requires IsAware()
    {
      wall - offset.value
    }
  }

  /** `process_bind_param`: an aware value becomes the same instant in UTC
      (`astimezone(timezone.utc)`); a naive value is tagged UTC with its wall
      clock unchanged; `None` passes through. */
  function BindParam(v: Option<DateTime>): (r: Option<DateTime>)
    ensures v.None? <==> r.None?
    ensures r.Some? ==> r.value.IsUtc()
    ensures v.Some? && v.value.IsAware() ==> r.value.Instant() == v.value.Instant()
    ensures v.Some? && !v.value.IsAware() ==> r.value.wall == v.value.wall
  {
    match v
    case None => None
    case Some(d) =>
      if d.IsAware() then Some(DateTime(d.Instant(), Some(0)))
      else Some(DateTime(d.wall, Some(0)))
  }

  /** `process_result_value`: a naive value read back is tagged UTC; aware
      values and `None` are returned as they are. */
  function ResultValue(v: Option<DateTime>): (r: Option<DateTime>)
    ensures v.None? <==> r.None?
    ensures r.Some? ==> r.value.IsAware() && r.value.wall == v.value.wall
    ensures v.Some? && v.value.IsAware() ==> r == v
  {
    match v
    case None => None
    case Some(d) => if d.IsAware() then v else Some(DateTime(d.wall, Some(0)))
  }

  /** SQLite's DATETIME column keeps the wall clock and drops the zone. */
  function Stored(v: Option<DateTime>): Option<DateTime> {
    match v
    case None => None
    case Some(d) => Some(DateTime(d.wall, None))
  }

  /** Binding, storing and reading back an aware value yields the same
      instant, tagged UTC; a naive value comes back with the same wall clock,
      tagged UTC. */
  lemma RoundTrip(d: DateTime)
    ensures var r := ResultValue(Stored(BindParam(Some(d))));
      r.Some? && r.value.IsUtc() &&
      (if d.IsAware() then r.value.Instant() == d.Instant() else r.value.wall == d.wall)
  {
  }

  /** Binding is idempotent: a bound value is already UTC. */
  lemma BindIdempotent(v: Option<DateTime>)
    ensures BindParam(BindParam(v)) == BindParam(v)
  {
  }

  /** `datetime.utcnow()` (naive) and `datetime.now(timezone.utc)` (aware)
      taken at the same moment are stored identically, which is why the
      store may mix them. */
  lemma NaiveUtcAndAwareUtcBindAlike(t: int)
    ensures BindParam(Some(DateTime(t, None))) == BindParam(Some(DateTime(t, Some(0))))
  {
  }

  /** After binding, comparing stored wall clocks compares instants, so the
      SQL comparisons against "now" order aware values by the instant they
      denote. */
  lemma BindPreservesOrder(a: DateTime, b: DateTime)
    requires a.IsAware() && b.IsAware()
    ensures var ra := BindParam(Some(a)).value; var rb := BindParam(Some(b)).value;
      (ra.wall < rb.wall <==> a.Instant() < b.Instant()) &&
      (ra.wall == rb.wall <==> a.Instant() == b.Instant())
  {
  }
}
