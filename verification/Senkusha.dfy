/** The search for the largest packet size that gets through, in either direction. */
module Senkusha {
  import opened Basics

  const MTU_UDP_PACKET_ADD: nat := 0x1c
  const MTU_AV_PACKET_ADD: nat := 0x12
  const MTU_PING_DATA_ADD: nat := MTU_UDP_PACKET_ADD + MTU_AV_PACKET_ADD
  const MTU_MIN: nat := 576
  const MTU_MAX: nat := 1454
  const MTU_RETRIES: nat := 3

  /** What becomes of one request: it is answered, or not in time; the wait ends early, with or without a request
      to stop; or it could not be sent at all. */
  datatype Answer = Answered | TimedOut | Woken(stop: bool) | NotSent

  datatype Error = Success | InvalidData | NetworkError | Timeout | Canceled | Unknown

  /** The answer to a request for a size; requests are numbered. */
  type Probe = (nat, nat) -> Answer

  /** A wait that ends early without a request to stop counts as answered. */
  predicate Works(a: Answer) {
    a == Answered || a == Woken(false)
  }

  predicate Unanswered(a: Answer) {
    a == TimedOut || a == NotSent
  }

  /** A request of this size has worked. */
  ghost predicate Worked(probe: Probe, size: nat, requests: nat) {
    exists id: nat :: id < requests && Works(probe(size, id))
  }

  /** As many requests of this size in a row as are made have not worked. */
  ghost predicate Failed(probe: Probe, size: nat, retries: nat, requests: nat) {
    exists first: nat :: AllFail(probe, size, first, retries) && first + retries <= requests
  }

  ghost predicate AllFail(probe: Probe, size: nat, first: nat, n: nat) {
    forall id: nat :: first <= id < first + n ==> !Works(probe(size, id))
  }

  /** Where the search stands: all below `min` is passed over because `min` has worked, all from `max` on because
      it has not. */
  ghost predicate Between(probe: Probe, lowest: nat, min: nat, max: nat, highest: nat, retries: nat, requests: nat) {
    && lowest <= min <= max <= highest
    && (min == lowest || Worked(probe, min, requests))
    && (max == highest || Failed(probe, max, retries, requests))
  }

  /** Exactly the sizes up to a threshold get through. */
  ghost predicate Threshold(probe: Probe, t: nat) {
    forall size: nat, id: nat :: probe(size, id) == if size <= t then Answered else TimedOut
  }

  lemma BetweenLater(probe: Probe, lowest: nat, min: nat, max: nat, highest: nat, retries: nat, requests: nat,
                     more: nat)
    requires Between(probe, lowest, min, max, highest, retries, requests) && requests <= more
    ensures Between(probe, lowest, min, max, highest, retries, more)
  {
    if Failed(probe, max, retries, requests) {
      var first: nat :| AllFail(probe, max, first, retries) && first + retries <= requests;
      assert AllFail(probe, max, first, retries) && first + retries <= more;
    }
  }

  /** Tries a size; the answer is `Ok(false)` if all tries time out. */
  datatype Tried = Tried(success: bool) | Aborted(error: Error)

  method TryIn(probe: Probe, size: nat, retries: nat, requests: nat) returns (r: Tried, requests': nat)
    ensures requests <= requests'
    ensures r == Tried(true) ==> Worked(probe, size, requests')
    ensures r == Tried(false) ==> Failed(probe, size, retries, requests')
    ensures requests' <= requests + retries
    ensures r.Aborted? ==> requests < requests'
    ensures r.Aborted? ==> r.error == if probe(size, requests' - 1) == NotSent then NetworkError else Canceled
    ensures r.Aborted? ==> probe(size, requests' - 1) == NotSent || probe(size, requests' - 1) == Woken(true)
    ensures forall t: nat :: Threshold(probe, t) && retries > 0 ==> r == Tried(size <= t)
    ensures r == Tried(false) ==>
              && requests' == requests + retries
              && forall id: nat :: requests <= id < requests' ==> probe(size, id) == TimedOut
    ensures r != Tried(false) ==>
              requests < requests' && forall id: nat :: requests <= id < requests' - 1 ==> probe(size, id) == TimedOut
    ensures r == Tried(true) ==> probe(size, requests' - 1) == Answered || probe(size, requests' - 1) == Woken(false)
  {
    requests' := requests;
    var attempt := 0;
    while attempt < retries
      invariant attempt <= retries && requests' == requests + attempt && AllFail(probe, size, requests, attempt)
      invariant forall id: nat :: requests <= id < requests' ==> probe(size, id) == TimedOut
    {
      var answer := probe(size, requests');
      requests' := requests' + 1;
      match answer
      case NotSent => return Aborted(NetworkError), requests';
      case Woken(stop) =>
        if stop { return Aborted(Canceled), requests'; }
        assert Works(probe(size, requests' - 1));
        return Tried(true), requests';
      case Answered =>
        assert Works(probe(size, requests' - 1));
        return Tried(true), requests';
      case TimedOut =>
      attempt := attempt + 1;
    }
    r := Tried(false);
    assert AllFail(probe, size, requests, retries);
    forall t: nat | Threshold(probe, t) && retries > 0 ensures r == Tried(size <= t) {
      assert !Works(probe(size, requests));
    }
  }

  /** As TryIn, except that a request that cannot be sent is taken for one that is not answered in time. */
  method TryOut(probe: Probe, size: nat, retries: nat, requests: nat) returns (r: Tried, requests': nat)
    ensures requests <= requests'
    ensures r == Tried(true) ==> Worked(probe, size, requests')
    ensures r == Tried(false) ==> Failed(probe, size, retries, requests')
    ensures requests' <= requests + retries
    ensures r.Aborted? ==> requests < requests' && r.error == Canceled && probe(size, requests' - 1) == Woken(true)
    ensures forall t: nat :: Threshold(probe, t) && retries > 0 ==> r == Tried(size <= t)
    ensures r == Tried(false) ==>
              && requests' == requests + retries
              && forall id: nat :: requests <= id < requests' ==> Unanswered(probe(size, id))
    ensures r != Tried(false) ==>
              && requests < requests'
              && forall id: nat :: requests <= id < requests' - 1 ==> Unanswered(probe(size, id))
    ensures r == Tried(true) ==> probe(size, requests' - 1) == Answered || probe(size, requests' - 1) == Woken(false)
  {
    requests' := requests;
    var attempt := 0;
    while attempt < retries
      invariant attempt <= retries && requests' == requests + attempt && AllFail(probe, size, requests, attempt)
      invariant forall id: nat :: requests <= id < requests' ==> Unanswered(probe(size, id))
    {
      var answer := probe(size, requests');
      requests' := requests' + 1;
      if answer != TimedOut && answer != NotSent {
        if answer == Woken(true) {
          return Aborted(Canceled), requests';
        }
        assert Works(probe(size, requests' - 1));
        return Tried(true), requests';
      }
      attempt := attempt + 1;
    }
    r := Tried(false);
    assert AllFail(probe, size, requests, retries);
    forall t: nat | Threshold(probe, t) && retries > 0 ensures r == Tried(size <= t) {
      assert !Works(probe(size, requests));
    }
  }

  /** A threshold, if there is one, lies in the interval that is left, or at its end beyond all that was to be tried. */
  ghost predicate Encloses(probe: Probe, lowest: nat, min: nat, max: nat, highest: nat, retries: nat) {
    forall t: nat :: Threshold(probe, t) && t >= lowest && retries >= 1 ==> min <= t && (t < max || max == highest)
  }

  /**
   * The search for inbound packets: it ends, whatever the answers; its result is the smallest size or one that has
   * worked, and the next size has not worked, unless it was not to be tried; and where a threshold decides, that is
   * what it finds.
   */
  method RunMtuIn(probe: Probe, lowest: nat, highest: nat, retries: nat)
    returns (error: Error, mtu: nat, ghost above: nat, requests: nat)
    requires lowest <= highest
    ensures error == Success || error == NetworkError || error == Canceled
    ensures error == NetworkError ==> exists size: nat, id: nat ::
                                             lowest <= size <= highest && probe(size, id) == NotSent
    ensures error == Canceled ==> exists size: nat, id: nat ::
                                         lowest <= size <= highest && probe(size, id) == Woken(true)
    ensures error == Success ==> Between(probe, lowest, mtu, above, highest, retries, requests) && above - mtu <= 1
    ensures forall t: nat :: Threshold(probe, t) && t >= lowest && highest - lowest >= 2 && retries >= 1 ==>
              error == Success && mtu == Min(t, highest)
  {
    var min: nat, max: nat, cur: nat := lowest, highest, highest;
    ghost var first := true;
    requests := 0;
    while max - min > 1
      invariant Between(probe, lowest, min, max, highest, retries, requests) && min <= cur <= max
      invariant if first then min == lowest && max == cur == highest else max - min > 1 ==> min < cur < max
      invariant Encloses(probe, lowest, min, max, highest, retries)
      invariant !first && min < highest ==>
                  forall t: nat :: Threshold(probe, t) && t >= lowest && retries >= 1 ==> t < max
      decreases max - min + if first then 1 else 0
    {
      var tried, more := TryIn(probe, cur, retries, requests);
      BetweenLater(probe, lowest, min, max, highest, retries, requests, more);
      requests := more;
      if tried.Aborted? {
        assert probe(cur, requests - 1) == NotSent || probe(cur, requests - 1) == Woken(true);
        return tried.error, 0, 0, requests;
      }
      if tried.success {
        min := cur;
      } else {
        max := cur;
      }
      cur, first := min + (max - min) / 2, false;
    }
    return Success, min, max, requests;
  }

  /** What becomes of the exchange of commands before the outbound search. */
  datatype Setup = Ready | CommandNotSent | NoCommand | Stopped | Interrupted

  function SetupError(setup: Setup): Error
    requires setup != Ready
  {
    match setup
    case CommandNotSent => NetworkError
    case NoCommand => Timeout
    case Stopped => Canceled
    case Interrupted => Unknown
  }

  /**
   * The search for outbound packets, which begins with the inbound result. It keeps what the inbound search keeps;
   * but as it never tries the largest size unless it begins with it, it finds a threshold only below that.
   */
  method RunMtuOut(probe: Probe, setup: Setup, finalSent: bool, mtuIn: nat, lowest: nat, highest: nat, retries: nat)
    returns (error: Error, mtu: Option<nat>, ghost above: nat, requests: nat)
    ensures error == InvalidData <==> lowest < 54 || highest < lowest
                                      || mtuIn < lowest || mtuIn > highest
    ensures mtu.Some? ==> Between(probe, lowest, mtu.value, above, highest, retries, requests) && above - mtu.value <= 1
    ensures error == Success <==> mtu.Some? && finalSent
    ensures mtu.Some? ==> error != InvalidData && setup == Ready
    ensures error != InvalidData && setup != Ready ==> error == SetupError(setup)
    ensures error != InvalidData && setup == Ready ==>
              error == if mtu.None? then Canceled else if finalSent then Success else NetworkError
    ensures forall t: nat :: Threshold(probe, t) && t >= lowest && highest - lowest >= 2 && retries >= 1
                             && error != InvalidData && setup == Ready ==>
              mtu == Some(if t < highest then t else if mtuIn == highest then highest else highest - 1)
  {
    above, requests := 0, 0;
    if lowest < 8 + MTU_PING_DATA_ADD || highest < lowest || mtuIn < lowest || mtuIn > highest {
      return InvalidData, None, 0, 0;
    }
    if setup != Ready {
      return SetupError(setup), None, 0, 0;
    }
    var found: nat;
    error, found, above, requests := SearchOut(probe, mtuIn, lowest, highest, retries);
    if error != Success {
      return error, None, above, requests;
    }
    return if finalSent then Success else NetworkError, Some(found), above, requests;
  }

  method SearchOut(probe: Probe, mtuIn: nat, lowest: nat, highest: nat, retries: nat)
    returns (error: Error, mtu: nat, ghost above: nat, requests: nat)
    requires lowest <= mtuIn <= highest
    ensures error == Success || error == Canceled
    ensures error == Success ==> Between(probe, lowest, mtu, above, highest, retries, requests) && above - mtu <= 1
    ensures forall t: nat :: Threshold(probe, t) && t >= lowest && highest - lowest >= 2 && retries >= 1 ==>
              error == Success && mtu == if t < highest then t else if mtuIn == highest then highest else highest - 1
  {
    var min: nat, max: nat, cur: nat := lowest, highest, mtuIn;
    ghost var first := true;
    requests := 0;
    while max - min > 1
      invariant Between(probe, lowest, min, max, highest, retries, requests) && min <= cur <= max
      invariant if first then min == lowest && max == highest && cur == mtuIn else max - min > 1 ==> min < cur < max
      invariant Encloses(probe, lowest, min, max, highest, retries)
      invariant !first && mtuIn < highest ==> min < max || max < highest
      invariant !first && mtuIn == highest ==> min == highest || forall t: nat ::
                  Threshold(probe, t) && t >= lowest && retries >= 1 ==> t < max
      decreases max - min + if first then 1 else 0
    {
      var tried, more := TryOut(probe, cur, retries, requests);
      BetweenLater(probe, lowest, min, max, highest, retries, requests, more);
      requests := more;
      if tried.Aborted? {
        return tried.error, 0, 0, requests;
      }
      if tried.success {
        min := cur;
      } else {
        max := cur;
      }
      cur, first := min + (max - min) / 2, false;
    }
    return Success, min, max, requests;
  }

  /**
   * Both searches with the sizes they are run with: with thresholds in both directions the inbound result is exact. The
   * outbound result is exact, too, except that the largest size is only found when it is the inbound result as well.
   */
  method Run(probeIn: Probe, probeOut: Probe) returns (mtuIn: nat, mtuOut: nat)
    requires exists t: nat :: t >= 576 && Threshold(probeIn, t)
    requires exists t: nat :: t >= 576 && Threshold(probeOut, t)
    ensures forall t: nat :: Threshold(probeIn, t) ==> mtuIn == Min(t, 1454)
    ensures forall t: nat :: Threshold(probeOut, t) ==>
              (mtuOut == Min(t, 1454) <==> t < 1454 || mtuIn == 1454) && mtuOut >= Min(t, 1454) - 1
  {
    ghost var tIn: nat :| tIn >= MTU_MIN && Threshold(probeIn, tIn);
    ghost var tOut: nat :| tOut >= MTU_MIN && Threshold(probeOut, tOut);
    OneThreshold(probeIn, tIn);
    OneThreshold(probeOut, tOut);
    var error, requests;
    ghost var above;
    error, mtuIn, above, requests := RunMtuIn(probeIn, MTU_MIN, MTU_MAX, MTU_RETRIES);
    var out;
    error, out, above, requests := RunMtuOut(probeOut, Ready, true, mtuIn, MTU_MIN, MTU_MAX, MTU_RETRIES);
    mtuOut := out.value;
  }

  lemma OneThreshold(probe: Probe, t: nat)
    requires Threshold(probe, t)
    ensures forall s: nat :: Threshold(probe, s) ==> s == t
  {
    forall s: nat | Threshold(probe, s) ensures s == t {
      assert probe(s, 0) == Answered && probe(t, 0) == Answered;
    }
  }
}
