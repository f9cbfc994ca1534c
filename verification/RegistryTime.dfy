/** verify/receipts.go: moments in seconds and nanoseconds, deadlines, and when a bundle was known complete. */
module RegistryTime {
  import opened Bytes
  import opened JsonValue

  datatype Moment = Moment(seconds: int, nanos: int)

  const SECOND := 1_000_000_000

  /** Whatever a timestamp can say: four-digit years are far inside these bounds. */
  type Instant = t: Moment | 0 <= t.nanos < 1_000_000_000
    && -0x1000_0000_0000_0000 <= t.seconds <= 0x1000_0000_0000_0000
    witness Moment(0, 0)

  /** RFC 3339 text, given no more meaning than that equal text is one moment. */
  const PARSE_TIME: Bytes -> Option<Instant>

  function ParseTime(v: Option<Value>): Option<Instant>
  {
    if v.Some? && v.value.String? then PARSE_TIME(v.value.s) else None
  }

  function Nanos(t: Instant): int
  {
    t.seconds * SECOND + t.nanos
  }

  predicate Before(a: Instant, b: Instant)
  {
    if a.seconds != b.seconds then a.seconds < b.seconds else a.nanos < b.nanos
  }

  /** at plus seconds is after than. */
  predicate AfterPlusSeconds(at: Instant, seconds: int, than: Instant)
  {
    var diff := than.seconds - at.seconds;
    if diff != seconds then seconds > diff else at.nanos > than.nanos
  }

  /** effective is before recorded plus notice. */
  predicate EffectiveBeforeNotice(effective: Instant, recorded: Instant, notice: int)
  {
    var diff := effective.seconds - recorded.seconds;
    if diff != notice then diff < notice else effective.nanos < recorded.nanos
  }

  lemma BeforeExact(a: Instant, b: Instant)
    ensures Before(a, b) <==> Nanos(a) < Nanos(b)
  {
  }

  /** Exact for every number of seconds, though only the difference is ever formed, which fits 64 bits. */
  lemma AfterPlusExact(at: Instant, seconds: int, than: Instant)
    ensures AfterPlusSeconds(at, seconds, than) <==> Nanos(at) + seconds * SECOND > Nanos(than)
    ensures MIN_INT64 <= than.seconds - at.seconds <= MAX_INT64
  {
  }

  lemma NoticeExact(effective: Instant, recorded: Instant, notice: int)
    ensures EffectiveBeforeNotice(effective, recorded, notice) <==> Nanos(effective) < Nanos(recorded) + notice * SECOND
  {
  }

  const MSD_SECONDS := 900
  const SEAL_GRACE_SECONDS := 120

  /** The deadline and the grace had passed by the time the bundle was known complete. */
  predicate DueBy(at: Option<Instant>, seconds: int, complete: Option<Instant>)
  {
    at.Some? && complete.Some? && !AfterPlusSeconds(at.value, seconds + SEAL_GRACE_SECONDS, complete.value)
  }

  /** The order on moments a bundle may be known complete at; not known is the earliest. */
  ghost predicate NoLater(a: Option<Instant>, b: Option<Instant>)
  {
    a.Some? ==> b.Some? && !Before(b.value, a.value)
  }

  /** What is due stays due as the bundle is known complete later. */
  lemma DueStaysDue(at: Option<Instant>, seconds: int, c: Option<Instant>, c': Option<Instant>)
    requires NoLater(c, c') && DueBy(at, seconds, c)
    ensures DueBy(at, seconds, c')
  {
    AfterPlusExact(at.value, seconds + SEAL_GRACE_SECONDS, c.value);
    AfterPlusExact(at.value, seconds + SEAL_GRACE_SECONDS, c'.value);
    BeforeExact(c'.value, c.value);
  }

  function Later(a: Option<Instant>, b: Option<Instant>): Option<Instant>
  {
    if b.None? || (a.Some? && !Before(a.value, b.value)) then a else b
  }

  /** The latest of the checkpoints' created_at and the latest trusted anchor. */
  function Latest(created: seq<Option<Instant>>, n: nat): Option<Instant>
    requires n <= |created|
  {
    if n == 0 then None else Later(Latest(created, n - 1), created[n - 1])
  }

  method CompleteAt(created: seq<Option<Instant>>, anchored: Option<Instant>) returns (latest: Option<Instant>)
    ensures latest == Later(Latest(created, |created|), anchored)
  {
    latest := None;
    for i := 0 to |created|
      invariant latest == Latest(created, i)
    {
      var at := created[i];
      if at.Some? && (latest.None? || Before(latest.value, at.value)) {
        latest := at;
      }
    }
    if anchored.Some? {
      if latest.None? || Before(latest.value, anchored.value) {
        latest := anchored;
      }
    }
  }

  /** It is no earlier than any of them and is one of them. */
  lemma {:induction false} LatestIsLatest(created: seq<Option<Instant>>, n: nat)
    requires n <= |created|
    ensures forall i :: 0 <= i < n ==> NoLater(created[i], Latest(created, n))
    ensures Latest(created, n).Some? ==> exists i :: 0 <= i < n && created[i] == Latest(created, n)
  {
    if n > 0 {
      LatestIsLatest(created, n - 1);
    }
  }

  lemma LaterAnchor(a: Option<Instant>, anchored: Option<Instant>, anchored': Option<Instant>)
    requires NoLater(anchored, anchored')
    ensures NoLater(Later(a, anchored), Later(a, anchored'))
  {
  }
}
