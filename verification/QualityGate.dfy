/** Which captures an enrollment takes (`fpc_enrollment_quality_profile300` as the session calls it,
    and `fpc_enrollment_progress_profile300`), in numbers. */
module QualityGate {
  import opened PreparedCaptures
  import opened Enrollment

  /** Confidence, coverage and quality all reach their bounds. */
  predicate Passes(p: PreparedCapture) {
    p.confidence >= 25 && p.coverage >= 60 && p.quality >= 32
  }

  /** Percentage and captures still wanted, as a session with `count` captures reports them. */
  predicate Reports(p: Progress, count: nat, early: bool) {
    && (p.complete <==> count >= 13 || (count >= 7 && early))
    && (if p.complete then p.percent == 100 && p.remaining == 0
        else 13 * p.percent <= 100 * count < 13 * (p.percent + 1) && p.remaining == 13 - count)
  }

  /** The captures already suffice for an early completion. */
  predicate Settled(count: nat, m: Metrics) {
    count >= 3 && m.motion > 0.4 && m.change < 0.085 && m.area >= 25000.0
  }

  /** A passing capture is taken, or the session fails on the way. */
  ghost predicate Accepted(s: Session, t: Session, status: int) {
    if t.failed then status != 0
    else
      && status == 0 && |t.captures| == |s.captures| + 1
      && t.metrics.area >= 0.0 && t.metrics.motion >= 0.0 && t.metrics.change >= 0.0
      && t.quality.attempts == (s.quality.attempts + 1) % 65536 && t.quality.streak == 0
      && (t.quality.latched <==> s.quality.latched || Settled(|t.captures|, t.metrics))
      && Reports(t.quality.progress, |t.captures|, t.quality.latched)
  }

  /** Any other capture only counts: one attempt more, one refusal more in a row, and the tenth
      refusal in a row, as an 8-bit counter sees it, and those behind it report 112. */
  ghost predicate Refused(s: Session, t: Session, status: int) {
    && !t.failed && t.captures == s.captures && t.matches == s.matches && t.spatial == s.spatial
    && t.groups == s.groups && t.grouping == s.grouping && t.metrics == s.metrics
    && t.quality.attempts == (s.quality.attempts + 1) % 65536 && t.quality.streak == (s.quality.streak + 1) % 256
    && status == (if t.quality.streak >= 10 then 112 else 0)
    && (t.quality.latched <==> s.quality.latched || Settled(|s.captures|, s.metrics))
    && Reports(t.quality.progress, |s.captures|, t.quality.latched)
  }

  /** Each figure has its own flag: bit 0 for confidence, bit 4 for coverage, bit 15 for quality. */
  lemma FlagsTell(p: PreparedCapture)
    ensures var flags := Flags(p);
            && (flags % 2 == 1 <==> p.confidence < 25) && flags / 2 % 8 == 0
            && (flags / 16 % 2 == 1 <==> p.coverage < 60) && flags / 32 % 1024 == 0
            && (flags / 32768 % 2 == 1 <==> p.quality < 32) && flags < 65536
            && (flags == 0 <==> Passes(p))
  {
  }

  /** A new session: nothing measured, nothing counted, thirteen captures to go. */
  lemma BeginsAtNothing()
    ensures var s := Created();
            && !s.failed && s.captures == [] && s.matches == [] && s.spatial == [] && s.groups == []
            && s.grouping.group == s.grouping.reference == -1 && s.grouping.groupCount == 0
            && s.metrics == Metrics(0.0, 0.0, 0.0) && s.quality.attempts == s.quality.streak == 0 && !s.quality.latched
            && Reports(s.quality.progress, 0, false)
  {
  }

  lemma ProgressReports(count: nat, latched: bool)
    ensures Reports(ProgressOf(count, latched), count, latched)
  {
  }

  /** One call on a session with room: the capture is taken, or refused, exactly by its three
      figures. */
  lemma GateExactly(s: Session, p: PreparedCapture, t: Session, status: int)
    requires Sound(s) && !s.failed && |s.captures| < 13 && Adds(s, p, t, status)
    ensures if Passes(p) then Accepted(s, t, status) else Refused(s, t, status)
  {
    hide Sound, Grouped, FromFeatures, Appends, Reselected, Extends, ProgressOf, Reports;
    JudgedIsSound(s, p);
    ProgressReports(|s.captures|, s.quality.latched || Settled(|s.captures|, s.metrics));
    ProgressReports(|t.captures|, t.quality.latched);
  }

  /** Seen from the outcome: whoever was taken had all three figures; without a failure status 111
      means a full session, and 112 a tenth refusal in a row or one behind it. */
  lemma TakenMeansPassed(s: Session, p: PreparedCapture, t: Session, status: int)
    requires Sound(s) && !s.failed && Adds(s, p, t, status)
    ensures |t.captures| > |s.captures| ==> Passes(p)
    ensures !t.failed ==> (|s.captures| >= 13 <==> status == 111)
    ensures !t.failed && status == 112 ==> !Passes(p) && t.quality.streak >= 10
  {
    hide Sound, Grouped, FromFeatures, Appends, Reselected, Extends, ProgressOf, Reports;
    if |s.captures| < 13 {
      GateExactly(s, p, t, status);
    }
  }
}
