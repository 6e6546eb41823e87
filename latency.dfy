/**
  * The latency sampler (`MeasureLatency`): five probes of one address reduced to
  * a display string, and the parse that the latency-regression check applies to
  * such strings.  The probes themselves are an input: one outcome per probe.
  */
module Latency {
  import opened Outcomes
  import opened Numbers
  import Text

  /** The number of probes one latency sample sends. */
  const Measurements := 5

  /**
    * What one `SendPingAsync` call produced: a reply with status `Success` and its
    * round-trip time, a reply with any other status, or an exception.
    */
  datatype PingOutcome = Success(roundTrip: nat) | NoReply | Threw(message: string)

  /** The outcomes of the probes of one sample, in the order they were sent. */
  type Probes = s: seq<PingOutcome> | |s| == Measurements
    witness [NoReply, NoReply, NoReply, NoReply, NoReply]

  /** A latency sample: the truncated mean in milliseconds, a time-out, or an error message. */
  datatype Sample = Millis(ms: nat) | TimedOut | Failed(message: string)

  const TimedOutText := "Request timed out"
  const MillisSuffix := " ms"

  /** The display string of a sample, which is also what the latency history stores. */
  function Render(l: Sample): string
  {
    match l
    case Millis(n) => NatToString(n) + MillisSuffix
    case TimedOut => TimedOutText
    case Failed(m) => ErrorPrefix + m
  }

  /** The round-trip times of the successful probes, in order. */
  function RoundTrips(probes: seq<PingOutcome>): seq<nat>
  {
    if probes == [] then []
    else
      var last := probes[|probes| - 1];
      RoundTrips(probes[..|probes| - 1]) + (if last.Success? then [last.roundTrip] else [])
  }

  /** The message of the first probe that threw, if any. */
  function FirstThrow(probes: seq<PingOutcome>): Option<string>
  {
    if probes == [] then None
    else if probes[0].Threw? then Some(probes[0].message)
    else FirstThrow(probes[1..])
  }

  function Sum(ts: seq<nat>): nat
  {
    if ts == [] then 0 else Sum(ts[..|ts| - 1]) + ts[|ts| - 1]
  }

  /**
    * The sample five probes yield: the first exception ends the sample with its
    * message; otherwise the truncated mean of the successful round trips, or a
    * time-out when none succeeded.
    */
  function Aggregate(probes: seq<PingOutcome>): (r: Sample)
    ensures r.Failed? ==> FirstThrow(probes) == Some(r.message)
    ensures r.Millis? ==> FirstThrow(probes) == None && RoundTrips(probes) != []
    ensures r.TimedOut? ==> FirstThrow(probes) == None && RoundTrips(probes) == []
  {
    match FirstThrow(probes)
    case Some(m) => Failed(m)
    case None =>
      var ts := RoundTrips(probes);
      if |ts| > 0 then Millis(Sum(ts) / |ts|) else TimedOut
  }

  /** Sends the probes one after another and reduces them to the sample's display string. */
  method MeasureLatency(probes: Probes) returns (latency: string)
    ensures latency == Render(Aggregate(probes))
  {
    var latencies: seq<nat> := [];
    for i := 0 to Measurements
      invariant latencies == RoundTrips(probes[..i])
      invariant forall j :: 0 <= j < i ==> !probes[j].Threw?
    {
      assert probes[..i + 1][..i] == probes[..i];
      match probes[i] {
        case Threw(m) =>
          FirstThrowAt(probes, i);
          return ErrorPrefix + m;
        case Success(t) =>
          latencies := latencies + [t];
        case NoReply =>
      }
    }
    assert probes[..Measurements] == probes;
    FirstThrowSpec(probes);
    if |latencies| > 0 {
      var averageLatency := Sum(latencies) / |latencies|;
      latency := NatToString(averageLatency) + MillisSuffix;
    } else {
      latency := TimedOutText;
    }
  }

  /** A probe that raises after probes that did not is the first to raise. */
  lemma {:induction false} FirstThrowAt(probes: seq<PingOutcome>, i: nat)
    requires i < |probes| && probes[i].Threw?
    requires forall j :: 0 <= j < i ==> !probes[j].Threw?
    ensures FirstThrow(probes) == Some(probes[i].message)
  {
    if i > 0 {
      FirstThrowAt(probes[1..], i - 1);
    }
  }

  /** `FirstThrow` names the earliest exception, and is absent exactly when no probe raised. */
  lemma {:induction false} FirstThrowSpec(probes: seq<PingOutcome>)
    ensures FirstThrow(probes) == None <==> forall i :: 0 <= i < |probes| ==> !probes[i].Threw?
    ensures FirstThrow(probes).Some? ==>
      exists i :: 0 <= i < |probes| && probes[i] == Threw(FirstThrow(probes).value) &&
        forall j :: 0 <= j < i ==> !probes[j].Threw?
  {
    if probes != [] && !probes[0].Threw? {
      FirstThrowSpec(probes[1..]);
      if FirstThrow(probes).Some? {
        var i :| 0 <= i < |probes[1..]| && probes[1..][i] == Threw(FirstThrow(probes).value) &&
          forall j :: 0 <= j < i ==> !probes[1..][j].Threw?;
        assert probes[i + 1] == Threw(FirstThrow(probes).value);
      }
    }
  }

  /** The number of probes that succeeded, counted from the first probe on. */
  function SuccessCount(probes: seq<PingOutcome>): nat
  {
    if probes == [] then 0 else (if probes[0].Success? then 1 else 0) + SuccessCount(probes[1..])
  }

  lemma {:induction false} SuccessCountSnoc(probes: seq<PingOutcome>, o: PingOutcome)
    ensures SuccessCount(probes + [o]) == SuccessCount(probes) + (if o.Success? then 1 else 0)
  {
    if probes == [] {
      assert ([] + [o])[1..] == [];
    } else {
      assert (probes + [o])[1..] == probes[1..] + [o];
      SuccessCountSnoc(probes[1..], o);
    }
  }

  /**
    * There is no successful round trip exactly when no probe succeeded; each one
    * comes from a successful probe, every successful probe contributes its own,
    * and there are as many as there were successes, which is the divisor of the mean.
    */
  lemma RoundTripsSpec(probes: seq<PingOutcome>)
    ensures RoundTrips(probes) == [] <==> forall i :: 0 <= i < |probes| ==> !probes[i].Success?
    ensures forall k :: 0 <= k < |RoundTrips(probes)| ==> Success(RoundTrips(probes)[k]) in probes
    ensures forall i :: 0 <= i < |probes| && probes[i].Success? ==> probes[i].roundTrip in RoundTrips(probes)
    ensures |RoundTrips(probes)| == SuccessCount(probes)
    ensures forall i :: 0 <= i < |probes| && probes[i].Success? ==>
      SuccessCount(probes[..i]) < |RoundTrips(probes)| &&
      RoundTrips(probes)[SuccessCount(probes[..i])] == probes[i].roundTrip
  {
    RoundTripsSound(probes);
    RoundTripsComplete(probes);
    RoundTripsCount(probes);
    RoundTripsInOrder(probes);
  }

  /**
    * The round trip of a successful probe sits at the position given by the
    * number of successes before it: the `k`-th collected time belongs to the
    * `k`-th successful probe.
    */
  lemma {:induction false} RoundTripsInOrder(probes: seq<PingOutcome>)
    ensures forall i :: 0 <= i < |probes| && probes[i].Success? ==>
      SuccessCount(probes[..i]) < |RoundTrips(probes)| &&
      RoundTrips(probes)[SuccessCount(probes[..i])] == probes[i].roundTrip
  {
    if probes != [] {
      var n := |probes| - 1;
      var init := probes[..n];
      RoundTripsInOrder(init);
      RoundTripsCount(init);
      forall i | 0 <= i < |probes| && probes[i].Success?
        ensures SuccessCount(probes[..i]) < |RoundTrips(probes)|
        ensures RoundTrips(probes)[SuccessCount(probes[..i])] == probes[i].roundTrip
      {
        if i < n {
          assert probes[..i] == init[..i];
          assert init[i] == probes[i];
        } else {
          assert probes[..i] == init;
        }
      }
    }
  }

  lemma {:induction false} RoundTripsSound(probes: seq<PingOutcome>)
    ensures RoundTrips(probes) == [] <==> forall i :: 0 <= i < |probes| ==> !probes[i].Success?
    ensures forall k :: 0 <= k < |RoundTrips(probes)| ==> Success(RoundTrips(probes)[k]) in probes
  {
    if probes != [] {
      var init := probes[..|probes| - 1];
      RoundTripsSound(init);
      assert forall i :: 0 <= i < |init| ==> init[i] == probes[i];
      assert forall o :: o in init ==> o in probes;
    }
  }

  lemma {:induction false} RoundTripsComplete(probes: seq<PingOutcome>)
    ensures forall i :: 0 <= i < |probes| && probes[i].Success? ==> probes[i].roundTrip in RoundTrips(probes)
  {
    if probes != [] {
      var init := probes[..|probes| - 1];
      RoundTripsComplete(init);
      assert forall i :: 0 <= i < |init| ==> init[i] == probes[i];
    }
  }

  lemma {:induction false} RoundTripsCount(probes: seq<PingOutcome>)
    ensures |RoundTrips(probes)| == SuccessCount(probes)
  {
    if probes != [] {
      var init := probes[..|probes| - 1];
      RoundTripsCount(init);
      assert probes == init + [probes[|probes| - 1]];
      SuccessCountSnoc(init, probes[|probes| - 1]);
    }
  }

  /**
    * The three outcomes of a sample in terms of the probes: an error carries the
    * message of the first probe that raised; a time-out means that no probe
    * raised or succeeded; a measured latency means that no probe raised and at
    * least one succeeded.
    */
  lemma AggregateOutcomes(probes: seq<PingOutcome>)
    ensures Aggregate(probes).Failed? ==>
      exists i :: 0 <= i < |probes| && probes[i] == Threw(Aggregate(probes).message) &&
        forall j :: 0 <= j < i ==> !probes[j].Threw?
    ensures Aggregate(probes) == TimedOut <==>
      forall i :: 0 <= i < |probes| ==> probes[i] == NoReply
    ensures Aggregate(probes).Millis? <==>
      (forall i :: 0 <= i < |probes| ==> !probes[i].Threw?) &&
      exists i :: 0 <= i < |probes| && probes[i].Success?
  {
    FirstThrowSpec(probes);
    RoundTripsSpec(probes);
  }

  /** Every element lies between the bounds, so the sum lies between the scaled bounds. */
  lemma {:induction false} SumBounds(ts: seq<nat>, lo: int, hi: int)
    requires forall k :: 0 <= k < |ts| ==> lo <= ts[k] <= hi
    ensures |ts| * lo <= Sum(ts) <= |ts| * hi
  {
    if ts != [] {
      var init := ts[..|ts| - 1];
      SumBounds(init, lo, hi);
      assert |ts| * lo == |init| * lo + lo;
      assert |ts| * hi == |init| * hi + hi;
    }
  }

  /**
    * The reported latency is a true average: it is no smaller than the fastest
    * successful round trip and no larger than the slowest.
    */
  lemma MeanBetweenExtremes(probes: seq<PingOutcome>)
    requires Aggregate(probes).Millis?
    ensures exists i :: 0 <= i < |probes| && probes[i].Success? && probes[i].roundTrip <= Aggregate(probes).ms
    ensures exists i :: 0 <= i < |probes| && probes[i].Success? && Aggregate(probes).ms <= probes[i].roundTrip
  {
    var ts := RoundTrips(probes);
    RoundTripsSpec(probes);
    LeastExists(ts);
    GreatestExists(ts);
    var lo :| LeastAt(ts, lo);
    var hi :| GreatestAt(ts, hi);
    SumBounds(ts, ts[lo], ts[hi]);
    TruncatedMeanBounds(Sum(ts), |ts|, ts[lo], ts[hi]);
    assert Success(ts[lo]) in probes && Success(ts[hi]) in probes;
  }

  /** Truncated division keeps a sum of `k` values between `k` times their bounds inside the bounds. */
  lemma TruncatedMeanBounds(s: nat, k: nat, lo: nat, hi: nat)
    requires k > 0 && k * lo <= s <= k * hi
    ensures lo <= s / k <= hi
  {
    var n := s / k;
    assert k * n <= s < k * n + k;
    assert k * n + k == k * (n + 1);
    MulLess(k, lo, n + 1);
    MulLess(k, n, hi + 1);
    assert k * hi + k == k * (hi + 1);
  }

  lemma MulLess(k: int, a: int, b: int)
    requires k > 0 && k * a < k * b
    ensures a < b
  {
    assert k * b - k * a == k * (b - a);
  }

  ghost predicate LeastAt(ts: seq<nat>, lo: int)
  {
    0 <= lo < |ts| && forall j :: 0 <= j < |ts| ==> ts[lo] <= ts[j]
  }

  ghost predicate GreatestAt(ts: seq<nat>, hi: int)
  {
    0 <= hi < |ts| && forall j :: 0 <= j < |ts| ==> ts[j] <= ts[hi]
  }

  lemma {:induction false} LeastExists(ts: seq<nat>)
    requires ts != []
    ensures exists lo :: LeastAt(ts, lo)
  {
    if |ts| > 1 {
      LeastExists(ts[1..]);
      var lo :| LeastAt(ts[1..], lo);
      if ts[0] <= ts[lo + 1] {
        assert LeastAt(ts, 0);
      } else {
        assert LeastAt(ts, lo + 1);
      }
    } else {
      assert LeastAt(ts, 0);
    }
  }

  lemma {:induction false} GreatestExists(ts: seq<nat>)
    requires ts != []
    ensures exists hi :: GreatestAt(ts, hi)
  {
    if |ts| > 1 {
      GreatestExists(ts[1..]);
      var hi :| GreatestAt(ts[1..], hi);
      if ts[hi + 1] <= ts[0] {
        assert GreatestAt(ts, 0);
      } else {
        assert GreatestAt(ts, hi + 1);
      }
    } else {
      assert GreatestAt(ts, 0);
    }
  }

  /** What the regression check reads from a latency string: `int.TryParse(s.Replace(" ms", ""))`. */
  function ParseLatency(s: string): (r: Option<int>)
    ensures r.Some? ==> Int32Min <= r.value <= Int32Max
  {
    TryParseInt(Text.Erase(s, MillisSuffix))
  }

  /**
    * Rendering a measured latency and parsing it back gives the number of
    * milliseconds, as long as it fits in a 32-bit integer.
    */
  lemma LatencyRoundTrip(n: nat)
    ensures ParseLatency(Render(Millis(n))) == if n <= Int32Max then Some(n) else None
  {
    var digits := NatToString(n);
    assert forall i :: 0 <= i < |digits| ==> digits[i] != MillisSuffix[0];
    Text.EraseKeepsPrefix(digits, MillisSuffix, MillisSuffix);
    assert Text.Erase(MillisSuffix, MillisSuffix) == [];
    assert digits + [] == digits;
    ParseNatToString(n);
  }

  /** The time-out and error sentinels never parse as a number. */
  lemma SentinelsDoNotParse(l: Sample)
    requires !l.Millis?
    ensures ParseLatency(Render(l)) == None
  {
    var s := Render(l);
    assert s[0] == 'R' || s[0] == 'E';
    LeadingLetterDoesNotParse(s);
  }

  /** A latency string that starts with a letter is not a number, whatever follows. */
  lemma LeadingLetterDoesNotParse(s: string)
    requires s != [] && ('A' <= s[0] <= 'Z' || 'a' <= s[0] <= 'z')
    ensures ParseLatency(s) == None
  {
    Text.EraseKeepsPrefix([s[0]], s[1..], MillisSuffix);
    assert [s[0]] + s[1..] == s;
    var e := Text.Erase(s, MillisSuffix);
    assert e[0] == s[0];
    ParseRejectsLeadingLetter(e);
  }
}
