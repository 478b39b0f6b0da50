/** The retransmit buffer: packets sent and not yet acknowledged. */
module SendBuffer {
  import opened Basics
  import Memory
  import SeqNum

  const RESEND_TIMEOUT_MS: nat := 200
  const RESEND_TRIES_MAX: nat := 10

  /** A packet; `buf` is the identity of its allocated buffer. */
  datatype Packet = Packet(seqNum: nat, tries: nat, lastSendMs: nat, buf: nat)

  datatype PushResult = Pushed | Overflow | InvalidData

  /** The packet is covered by a cumulative acknowledgement. */
  predicate Covered(p: Packet, seqNum: nat) {
    p.seqNum == seqNum || SeqNum.Lt(SeqNum.MOD32, p.seqNum, seqNum)
  }

  /** The packets a cumulative acknowledgement leaves, in order. */
  function Kept(ps: seq<Packet>, seqNum: nat): (r: seq<Packet>)
    ensures |r| <= |ps|
  {
    if ps == [] then []
    else
      var p := ps[|ps| - 1];
      Kept(ps[..|ps| - 1], seqNum) + if Covered(p, seqNum) then [] else [p]
  }

  /** The packets it removes, in order. */
  function Acked(ps: seq<Packet>, seqNum: nat): (r: seq<Packet>)
    ensures |r| + |Kept(ps, seqNum)| == |ps|
  {
    if ps == [] then []
    else
      var p := ps[|ps| - 1];
      Acked(ps[..|ps| - 1], seqNum) + if Covered(p, seqNum) then [p] else []
  }

  /** By true numbers: with less than half the range between them, a packet is covered iff its number is not greater. */
  lemma CoveredIff(p: Packet, x: int, n: int)
    requires p.seqNum == x % 0x1_0000_0000 && -0x8000_0000 < x - n < 0x8000_0000
    ensures Covered(p, n % 0x1_0000_0000) <==> x <= n
  {
    SeqNum.SerialOrder(SeqNum.MOD32, x, n);
  }

  /** These are the places at which the flag is set, in order. */
  ghost predicate Picks(flags: seq<bool>, at: seq<nat>) {
    && (forall j :: 0 <= j < |at| ==> at[j] < |flags| && flags[at[j]])
    && (forall i, j :: 0 <= i < j < |at| ==> at[i] < at[j])
    && (forall i: nat :: i < |flags| && flags[i] ==> i in at)
  }

  lemma {:induction false} PicksNext(flags: seq<bool>, at: seq<nat>)
    requires flags != [] && flags[|flags| - 1] && Picks(flags[..|flags| - 1], at)
    ensures Picks(flags, at + [|flags| - 1])
  {
    var m := |flags| - 1;
    var next := at + [m];
    forall i: nat | i < |flags| && flags[i] ensures i in next {
      if i < m {
        assert flags[..m][i];
        assert i in at;
      } else {
        assert next[|at|] == i;
      }
    }
    forall j | 0 <= j < |next| ensures next[j] < |flags| && flags[next[j]] {
      if j < |at| { assert at[j] < |flags[..m]| && flags[..m][at[j]]; }
    }
    forall i, j | 0 <= i < j < |next| ensures next[i] < next[j] {
      assert at[i] < |flags[..m]|;
      if j < |at| { assert at[i] < at[j]; }
    }
  }

  lemma {:induction false} PicksSame(flags: seq<bool>, at: seq<nat>)
    requires flags != [] && !flags[|flags| - 1] && Picks(flags[..|flags| - 1], at)
    ensures Picks(flags, at)
  {
    var m := |flags| - 1;
    forall i: nat | i < |flags| && flags[i] ensures i in at {
      assert flags[..m][i];
    }
    forall j | 0 <= j < |at| ensures at[j] < |flags| && flags[at[j]] {
      assert at[j] < |flags[..m]| && flags[..m][at[j]];
    }
  }

  lemma PicksMore(flags: seq<bool>, at: seq<nat>) returns (more: seq<nat>)
    requires flags != [] && Picks(flags[..|flags| - 1], at)
    ensures Picks(flags, more) && more == if flags[|flags| - 1] then at + [|flags| - 1] else at
  {
    hide Picks;
    if flags[|flags| - 1] {
      PicksNext(flags, at);
      more := at + [|flags| - 1];
    } else {
      PicksSame(flags, at);
      more := at;
    }
  }

  /** The packets have these true numbers, all near the number acknowledged. */
  ghost predicate Numbered(ps: seq<Packet>, seqNum: nat, xs: seq<int>, n: int) {
    && |xs| == |ps| && seqNum == n % 0x1_0000_0000
    && forall i :: 0 <= i < |ps| ==>
         ps[i].seqNum == xs[i] % 0x1_0000_0000 && -0x8000_0000 < xs[i] - n < 0x8000_0000
  }

  /** Of the packets just those with greater numbers are left; the numbers of the others are `gone`, and their buffers
      `freed`; all in order. */
  ghost predicate UpTo(ps: seq<Packet>, left: seq<Packet>, gone: seq<nat>, freed: seq<nat>, xs: seq<int>, n: int)
    requires |xs| == |ps|
  {
    && (exists at :: Picks(Greater(xs, n, true), at) && PacketsAt(ps, left, at))
    && (exists at :: Picks(Greater(xs, n, false), at) && NumbersAt(ps, gone, at) && BufsAt(ps, freed, at))
  }

  function Greater(xs: seq<int>, n: int, greater: bool): (flags: seq<bool>)
    ensures |flags| == |xs| && forall i :: 0 <= i < |xs| ==> (flags[i] <==> (xs[i] > n) == greater)
  {
    seq(|xs|, i requires 0 <= i < |xs| => (xs[i] > n) == greater)
  }

  ghost predicate PacketsAt(ps: seq<Packet>, rs: seq<Packet>, at: seq<nat>) {
    |rs| == |at| && forall j :: 0 <= j < |at| ==> at[j] < |ps| && rs[j] == ps[at[j]]
  }

  ghost predicate NumbersAt(ps: seq<Packet>, ns: seq<nat>, at: seq<nat>) {
    |ns| == |at| && forall j :: 0 <= j < |at| ==> at[j] < |ps| && ns[j] == ps[at[j]].seqNum
  }

  ghost predicate BufsAt(ps: seq<Packet>, bufs: seq<nat>, at: seq<nat>) {
    |bufs| == |at| && forall j :: 0 <= j < |at| ==> at[j] < |ps| && bufs[j] == ps[at[j]].buf
  }

  /** An acknowledgement leaves just the packets with greater numbers, and removes all others. */
  lemma AckUpTo(ps: seq<Packet>, seqNum: nat, xs: seq<int>, n: int)
    requires Numbered(ps, seqNum, xs, n)
    ensures UpTo(ps, Kept(ps, seqNum), SeqNums(Acked(ps, seqNum)), Bufs(Acked(ps, seqNum)), xs, n)
  {
    hide Picks, Covered;
    forall i | 0 <= i < |ps| ensures Covered(ps[i], seqNum) <==> xs[i] <= n {
      CoveredIff(ps[i], xs[i], n);
    }
    var at := KeptPlaces(ps, seqNum, Greater(xs, n, true));
    var off := AckedPlaces(ps, seqNum, Greater(xs, n, false));
    assert NumbersAt(ps, SeqNums(Acked(ps, seqNum)), off) && BufsAt(ps, Bufs(Acked(ps, seqNum)), off);
  }

  ghost predicate Flagged(ps: seq<Packet>, seqNum: nat, flags: seq<bool>, covered: bool) {
    |flags| == |ps| && forall i :: 0 <= i < |ps| ==> (flags[i] <==> Covered(ps[i], seqNum) == covered)
  }

  lemma {:induction false} KeptPlaces(ps: seq<Packet>, seqNum: nat, flags: seq<bool>) returns (at: seq<nat>)
    requires Flagged(ps, seqNum, flags, false)
    ensures Picks(flags, at) && PacketsAt(ps, Kept(ps, seqNum), at)
  {
    if ps == [] {
      at := [];
    } else {
      hide Picks, PacketsAt, Covered, Acked;
      var m := |ps| - 1;
      at := KeptPlaces(ps[..m], seqNum, flags[..m]);
      NextPlace(ps, Kept(ps[..m], seqNum), at);
      at := PicksMore(flags, at);
    }
  }

  lemma {:induction false} AckedPlaces(ps: seq<Packet>, seqNum: nat, flags: seq<bool>) returns (at: seq<nat>)
    requires Flagged(ps, seqNum, flags, true)
    ensures Picks(flags, at) && PacketsAt(ps, Acked(ps, seqNum), at)
  {
    if ps == [] {
      at := [];
    } else {
      hide Picks, PacketsAt, Covered, Kept;
      var m := |ps| - 1;
      at := AckedPlaces(ps[..m], seqNum, flags[..m]);
      NextPlace(ps, Acked(ps[..m], seqNum), at);
      at := PicksMore(flags, at);
    }
  }

  lemma NextPlace(ps: seq<Packet>, rs: seq<Packet>, at: seq<nat>)
    requires ps != [] && PacketsAt(ps[..|ps| - 1], rs, at)
    ensures PacketsAt(ps, rs, at) && PacketsAt(ps, rs + [ps[|ps| - 1]], at + [|ps| - 1])
  {
  }

  function SeqNums(ps: seq<Packet>): (r: seq<nat>)
    ensures |r| == |ps| && forall i :: 0 <= i < |ps| ==> r[i] == ps[i].seqNum
  {
    seq(|ps|, i requires 0 <= i < |ps| => ps[i].seqNum)
  }

  function Bufs(ps: seq<Packet>): (r: seq<nat>)
    ensures |r| == |ps| && forall i :: 0 <= i < |ps| ==> r[i] == ps[i].buf
  {
    seq(|ps|, i requires 0 <= i < |ps| => ps[i].buf)
  }

  ghost predicate Distinct(ps: seq<Packet>) {
    forall i, j :: 0 <= i < j < |ps| ==> ps[i].seqNum != ps[j].seqNum
  }

  /** What holds between each packet and every later one under a monotone clock: it has had more tries, or as many and
      no later a send time; and if packets are pushed in increasing serial order (`numbered`) it has the
      lower number. */
  predicate Before(p: Packet, q: Packet, numbered: bool) {
    && (numbered ==> SeqNum.Lt(SeqNum.MOD32, p.seqNum, q.seqNum))
    && (p.tries > q.tries || (p.tries == q.tries && p.lastSendMs <= q.lastSendMs))
  }

  ghost predicate InOrder(ps: seq<Packet>, now: nat, numbered: bool) {
    && (forall i, j :: 0 <= i < j < |ps| ==> Before(ps[i], ps[j], numbered))
    && (forall i :: 0 <= i < |ps| ==> ps[i].tries <= RESEND_TRIES_MAX && ps[i].lastSendMs <= now)
  }

  lemma {:induction false} KeptFrom(ps: seq<Packet>, seqNum: nat)
    ensures forall p :: p in Kept(ps, seqNum) <==> p in ps && !Covered(p, seqNum)
    ensures forall p :: p in Acked(ps, seqNum) <==> p in ps && Covered(p, seqNum)
  {
    if ps != [] {
      KeptFrom(ps[..|ps| - 1], seqNum);
      assert ps == ps[..|ps| - 1] + [ps[|ps| - 1]];
    }
  }

  lemma InOrderLast(ps: seq<Packet>, now: nat, numbered: bool)
    requires ps != [] && InOrder(ps, now, numbered)
    ensures var n := |ps| - 1;
            && InOrder(ps[..n], now, numbered) && (forall i :: 0 <= i < n ==> Before(ps[i], ps[n], numbered))
            && ps[n].tries <= RESEND_TRIES_MAX && ps[n].lastSendMs <= now
  {
  }

  lemma InOrderMore(ps: seq<Packet>, p: Packet, now: nat, numbered: bool)
    requires InOrder(ps, now, numbered) && forall i :: 0 <= i < |ps| ==> Before(ps[i], p, numbered)
    requires p.tries <= RESEND_TRIES_MAX && p.lastSendMs <= now
    ensures InOrder(ps + [p], now, numbered)
  {
  }

  /** An acknowledgement keeps the order of what it leaves. */
  lemma {:induction false} KeptInOrder(ps: seq<Packet>, seqNum: nat, now: nat, numbered: bool)
    requires InOrder(ps, now, numbered)
    ensures InOrder(Kept(ps, seqNum), now, numbered)
  {
    if ps != [] {
      hide InOrder, Before, Covered;
      var rest, last := ps[..|ps| - 1], ps[|ps| - 1];
      InOrderLast(ps, now, numbered);
      KeptInOrder(rest, seqNum, now, numbered);
      if !Covered(last, seqNum) {
        KeptBefore(rest, seqNum, last, numbered);
        InOrderMore(Kept(rest, seqNum), last, now, numbered);
      }
    }
  }

  lemma KeptBefore(ps: seq<Packet>, seqNum: nat, q: Packet, numbered: bool)
    requires forall i :: 0 <= i < |ps| ==> Before(ps[i], q, numbered)
    ensures forall i :: 0 <= i < |Kept(ps, seqNum)| ==> Before(Kept(ps, seqNum)[i], q, numbered)
  {
    hide Before, Covered, Kept;
    KeptFrom(ps, seqNum);
    var k := Kept(ps, seqNum);
    forall i | 0 <= i < |k| ensures Before(k[i], q, numbered) {
      assert k[i] in ps;
    }
  }

  lemma {:induction false} KeptDistinct(ps: seq<Packet>, seqNum: nat)
    requires Distinct(ps)
    ensures Distinct(Kept(ps, seqNum))
  {
    if ps != [] {
      KeptDistinct(ps[..|ps| - 1], seqNum);
      KeptFrom(ps[..|ps| - 1], seqNum);
      var k := Kept(ps[..|ps| - 1], seqNum);
      forall i | 0 <= i < |k| ensures k[i].seqNum != ps[|ps| - 1].seqNum {
        assert k[i] in ps[..|ps| - 1];
      }
    }
  }

  /** An acknowledgement splits the packets: nothing is lost or duplicated. */
  lemma {:induction false} KeptAndAcked(ps: seq<Packet>, seqNum: nat)
    ensures multiset(ps) == multiset(Kept(ps, seqNum)) + multiset(Acked(ps, seqNum))
  {
    if ps != [] {
      hide Covered;
      var rest, p := ps[..|ps| - 1], ps[|ps| - 1];
      KeptAndAcked(rest, seqNum);
      assert ps == rest + [p];
      if Covered(p, seqNum) {
        assert Kept(ps, seqNum) == Kept(rest, seqNum);
      } else {
        assert Acked(ps, seqNum) == Acked(rest, seqNum);
      }
    }
  }

  /** The packet has waited long enough to be sent again. */
  predicate Due(p: Packet, now: nat) {
    now - p.lastSendMs > RESEND_TIMEOUT_MS
  }

  predicate GivesUp(p: Packet, now: nat) {
    Due(p, now) && p.tries >= RESEND_TRIES_MAX
  }

  /** A packet after its turn in a resend pass, if it is not given up. */
  function Bump(p: Packet, now: nat): Packet {
    if Due(p, now) then p.(tries := p.tries + 1, lastSendMs := now) else p
  }

  /** The packets after a resend pass. */
  function Resent(ps: seq<Packet>, now: nat): (r: seq<Packet>)
    ensures |r| <= |ps|
  {
    if ps == [] then []
    else
      var p := ps[|ps| - 1];
      Resent(ps[..|ps| - 1], now) + if GivesUp(p, now) then [] else [Bump(p, now)]
  }

  /** The buffers sent again in the pass. */
  function SentAgain(ps: seq<Packet>, now: nat): seq<nat> {
    if ps == [] then []
    else
      var p := ps[|ps| - 1];
      SentAgain(ps[..|ps| - 1], now) + if Due(p, now) && !GivesUp(p, now) then [p.buf] else []
  }

  /** The buffers freed because their packets were given up. */
  function GivenUp(ps: seq<Packet>, now: nat): seq<nat> {
    if ps == [] then []
    else
      var p := ps[|ps| - 1];
      GivenUp(ps[..|ps| - 1], now) + if GivesUp(p, now) then [p.buf] else []
  }

  /** A pass sends again what was last sent more than 200 ms ago, and gives it up after ten tries. */
  datatype Turn = Waits | GoesAgain | IsGivenUp

  function TurnOf(p: Packet, now: nat): Turn {
    if now - p.lastSendMs <= 200 then Waits else if p.tries < 10 then GoesAgain else IsGivenUp
  }

  function Turns(ps: seq<Packet>, now: nat, turns: set<Turn>): (flags: seq<bool>)
    ensures |flags| == |ps| && forall i :: 0 <= i < |ps| ==> (flags[i] <==> TurnOf(ps[i], now) in turns)
  {
    seq(|ps|, i requires 0 <= i < |ps| => TurnOf(ps[i], now) in turns)
  }

  /** All packets not given up are held, those sent again with one try more at this time; all in order. */
  ghost predicate Passed(ps: seq<Packet>, left: seq<Packet>, sent: seq<nat>, freed: seq<nat>, now: nat) {
    && (exists at :: Picks(Turns(ps, now, {Waits, GoesAgain}), at) && TriedAt(ps, left, at, now))
    && (exists at :: Picks(Turns(ps, now, {GoesAgain}), at) && BufsAt(ps, sent, at))
    && (exists at :: Picks(Turns(ps, now, {IsGivenUp}), at) && BufsAt(ps, freed, at))
  }

  ghost predicate TriedAt(ps: seq<Packet>, rs: seq<Packet>, at: seq<nat>, now: nat) {
    && |rs| == |at|
    && forall j :: 0 <= j < |at| ==>
         && at[j] < |ps|
         && rs[j] == if TurnOf(ps[at[j]], now) == Waits then ps[at[j]]
                     else Packet(ps[at[j]].seqNum, ps[at[j]].tries + 1, now, ps[at[j]].buf)
  }

  /** What a pass that gets to the end does to every packet. */
  lemma PassedAll(ps: seq<Packet>, now: nat)
    ensures Passed(ps, Resent(ps, now), SentAgain(ps, now), GivenUp(ps, now), now)
  {
    hide Picks, Resent, SentAgain, GivenUp, TriedAt, BufsAt;
    var left := ResentPlaces(ps, Turns(ps, now, {Waits, GoesAgain}), now);
    var sent := SentPlaces(ps, Turns(ps, now, {GoesAgain}), now);
    var freed := GivenUpPlaces(ps, Turns(ps, now, {IsGivenUp}), now);
  }

  lemma {:induction false} ResentPlaces(ps: seq<Packet>, flags: seq<bool>, now: nat) returns (at: seq<nat>)
    requires |flags| == |ps| && forall i :: 0 <= i < |ps| ==> (flags[i] <==> TurnOf(ps[i], now) != IsGivenUp)
    ensures Picks(flags, at) && TriedAt(ps, Resent(ps, now), at, now)
  {
    if ps == [] {
      at := [];
    } else {
      hide Picks, TriedAt;
      var m := |ps| - 1;
      at := ResentPlaces(ps[..m], flags[..m], now);
      NextTried(ps, Resent(ps[..m], now), at, now);
      at := PicksMore(flags, at);
    }
  }

  lemma NextTried(ps: seq<Packet>, rs: seq<Packet>, at: seq<nat>, now: nat)
    requires ps != [] && TriedAt(ps[..|ps| - 1], rs, at, now)
    ensures TriedAt(ps, rs, at, now)
    ensures TriedAt(ps, rs + [Bump(ps[|ps| - 1], now)], at + [|ps| - 1], now)
  {
  }

  lemma {:induction false} SentPlaces(ps: seq<Packet>, flags: seq<bool>, now: nat) returns (at: seq<nat>)
    requires |flags| == |ps| && forall i :: 0 <= i < |ps| ==> (flags[i] <==> TurnOf(ps[i], now) == GoesAgain)
    ensures Picks(flags, at) && BufsAt(ps, SentAgain(ps, now), at)
  {
    if ps == [] {
      at := [];
    } else {
      hide Picks, BufsAt;
      var m := |ps| - 1;
      at := SentPlaces(ps[..m], flags[..m], now);
      NextBuf(ps, SentAgain(ps[..m], now), at);
      at := PicksMore(flags, at);
    }
  }

  lemma {:induction false} GivenUpPlaces(ps: seq<Packet>, flags: seq<bool>, now: nat) returns (at: seq<nat>)
    requires |flags| == |ps| && forall i :: 0 <= i < |ps| ==> (flags[i] <==> TurnOf(ps[i], now) == IsGivenUp)
    ensures Picks(flags, at) && BufsAt(ps, GivenUp(ps, now), at)
  {
    if ps == [] {
      at := [];
    } else {
      hide Picks, BufsAt;
      var m := |ps| - 1;
      at := GivenUpPlaces(ps[..m], flags[..m], now);
      NextBuf(ps, GivenUp(ps[..m], now), at);
      at := PicksMore(flags, at);
    }
  }

  lemma NextBuf(ps: seq<Packet>, bufs: seq<nat>, at: seq<nat>)
    requires ps != [] && BufsAt(ps[..|ps| - 1], bufs, at)
    ensures BufsAt(ps, bufs, at) && BufsAt(ps, bufs + [ps[|ps| - 1].buf], at + [|ps| - 1])
  {
  }

  /** Whenever a packet is given up, so are all before it: nothing of them is left. */
  lemma {:induction false} GiveUpFirst(ps: seq<Packet>, k: nat, n: nat, now: nat, numbered: bool)
    requires InOrder(ps, now, numbered) && n <= k < |ps| && GivesUp(ps[k], now)
    ensures Resent(ps[..n], now) == []
  {
    if n > 0 {
      assert Before(ps[n - 1], ps[k], numbered) || n - 1 == k;
      assert ps[..n][..n - 1] == ps[..n - 1];
      GiveUpFirst(ps, k, n - 1, now, numbered);
    }
  }

  lemma BumpBefore(p: Packet, q: Packet, now: nat, numbered: bool)
    requires Before(p, q, numbered) && p.lastSendMs <= now && q.lastSendMs <= now && p.tries <= RESEND_TRIES_MAX
    requires !GivesUp(p, now) && !GivesUp(q, now)
    ensures Before(Bump(p, now), Bump(q, now), numbered)
  {}

  /** `q` is what became of one of the packets. */
  ghost predicate BumpedFrom(ps: seq<Packet>, q: Packet, now: nat) {
    exists p :: p in ps && !GivesUp(p, now) && q == Bump(p, now)
  }

  lemma {:induction false} ResentFrom(ps: seq<Packet>, now: nat)
    ensures forall i :: 0 <= i < |Resent(ps, now)| ==> BumpedFrom(ps, Resent(ps, now)[i], now)
  {
    if ps != [] {
      var rest, last := ps[..|ps| - 1], ps[|ps| - 1];
      ResentFrom(rest, now);
      forall q | BumpedFrom(rest, q, now) ensures BumpedFrom(ps, q, now) {
        var p :| p in rest && !GivesUp(p, now) && q == Bump(p, now);
        assert p in ps;
      }
      assert !GivesUp(last, now) ==> last in ps && BumpedFrom(ps, Bump(last, now), now);
    }
  }

  /** A resend pass keeps the order. */
  lemma {:induction false} ResentInOrder(ps: seq<Packet>, now: nat, numbered: bool)
    requires InOrder(ps, now, numbered)
    ensures InOrder(Resent(ps, now), now, numbered)
  {
    if ps != [] {
      hide InOrder, Before;
      var rest, last := ps[..|ps| - 1], ps[|ps| - 1];
      InOrderLast(ps, now, numbered);
      ResentInOrder(rest, now, numbered);
      if !GivesUp(last, now) {
        forall i | 0 <= i < |Resent(rest, now)| ensures Before(Resent(rest, now)[i], Bump(last, now), numbered) {
          ResentBefore(ps, now, i, numbered);
        }
        assert Bump(last, now).tries <= RESEND_TRIES_MAX && Bump(last, now).lastSendMs <= now;
        InOrderMore(Resent(rest, now), Bump(last, now), now, numbered);
      }
    }
  }

  lemma ResentBefore(ps: seq<Packet>, now: nat, i: nat, numbered: bool)
    requires InOrder(ps, now, numbered) && ps != [] && !GivesUp(ps[|ps| - 1], now) && i < |Resent(ps[..|ps| - 1], now)|
    ensures Before(Resent(ps[..|ps| - 1], now)[i], Bump(ps[|ps| - 1], now), numbered)
  {
    hide Before;
    var rest := ps[..|ps| - 1];
    ResentFrom(rest, now);
    var p :| p in rest && !GivesUp(p, now) && Resent(rest, now)[i] == Bump(p, now);
    BumpBefore(p, ps[|ps| - 1], now, numbered);
  }

  lemma ResendStep(ps: seq<Packet>, k: nat, now: nat)
    requires k < |ps|
    ensures Resent(ps[..k + 1], now) == Resent(ps[..k], now) + if GivesUp(ps[k], now) then [] else [Bump(ps[k], now)]
    ensures SentAgain(ps[..k + 1], now)
         == SentAgain(ps[..k], now) + if Due(ps[k], now) && !GivesUp(ps[k], now) then [ps[k].buf] else []
    ensures GivenUp(ps[..k + 1], now) == GivenUp(ps[..k], now) + if GivesUp(ps[k], now) then [ps[k].buf] else []
  {
    assert ps[..k + 1][..k] == ps[..k];
  }

  /** The acknowledgement of a packet given up removes that packet alone, for which the caller has room, iff no other
      packet held is covered by its number. */
  lemma GiveUpAlone(ps: seq<Packet>, k: nat)
    requires Distinct(ps) && k < |ps|
    ensures |Acked(ps, ps[k].seqNum)| == 1 <==> forall j :: 0 <= j < |ps| && j != k ==> !Covered(ps[j], ps[k].seqNum)
  {
    var n := ps[k].seqNum;
    if forall j :: 0 <= j < |ps| && j != k ==> !Covered(ps[j], n) {
      OneAcked(ps, k, |ps|);
      assert ps[..|ps|] == ps;
    } else {
      hide Covered;
      var j :| 0 <= j < |ps| && j != k && Covered(ps[j], n);
      TwoAcked(ps, n, j, k);
    }
  }

  lemma TwoAcked(ps: seq<Packet>, n: nat, j: nat, k: nat)
    requires Distinct(ps) && j < |ps| && k < |ps| && j != k && Covered(ps[j], n) && Covered(ps[k], n)
    ensures |Acked(ps, n)| != 1
  {
    hide Acked, Covered;
    KeptFrom(ps, n);
    assert ps[j] in Acked(ps, n) && ps[k] in Acked(ps, n) && ps[j].seqNum != ps[k].seqNum;
  }

  lemma CoversItself(p: Packet)
    ensures Covered(p, p.seqNum)
  {
  }

  lemma {:induction false} OneAcked(ps: seq<Packet>, k: nat, m: nat)
    requires k < |ps| && m <= |ps|
    requires forall j :: 0 <= j < |ps| && j != k ==> !Covered(ps[j], ps[k].seqNum)
    ensures Acked(ps[..m], ps[k].seqNum) == if k < m then [ps[k]] else []
  {
    if m > 0 {
      hide Acked, Kept, Covered, SeqNums, Bufs;
      assert Covered(ps[k], ps[k].seqNum) by { CoversItself(ps[k]); }
      PrefixStep(ps, ps[k].seqNum, m - 1);
      OneAcked(ps, k, m - 1);
    }
  }

  lemma {:induction false} NoneCovered(ps: seq<Packet>, seqNum: nat)
    requires forall i :: 0 <= i < |ps| ==> !Covered(ps[i], seqNum)
    ensures Kept(ps, seqNum) == ps
  {
    if ps != [] { NoneCovered(ps[..|ps| - 1], seqNum); }
  }

  lemma OneKept(ps: seq<Packet>, k: nat)
    requires k < |ps|
    requires forall j :: 0 <= j < |ps| && j != k ==> !Covered(ps[j], ps[k].seqNum)
    ensures Kept(ps, ps[k].seqNum) == ps[..k] + ps[k + 1..]
  {
    hide Kept, Covered;
    NoneCovered(ps[..k], ps[k].seqNum);
    NoneCovered(ps[k + 1..], ps[k].seqNum);
    KeptAround(ps, k);
  }

  lemma KeptAround(ps: seq<Packet>, k: nat)
    requires k < |ps|
    ensures Kept(ps, ps[k].seqNum) == Kept(ps[..k], ps[k].seqNum) + Kept(ps[k + 1..], ps[k].seqNum)
  {
    hide Kept;
    var before, after := ps[..k], ps[k + 1..];
    Cut(ps, k);
    KeptJoined(before, ps[k], after);
  }

  lemma Cut(ps: seq<Packet>, k: nat)
    requires k < |ps|
    ensures (ps[..k] + [ps[k]]) + ps[k + 1..] == ps
  {
    assert ps[..k] + [ps[k]] == ps[..k + 1];
  }

  lemma KeptJoined(before: seq<Packet>, p: Packet, after: seq<Packet>)
    ensures Kept((before + [p]) + after, p.seqNum) == Kept(before, p.seqNum) + Kept(after, p.seqNum)
  {
    KeptJoin(before + [p], after, p.seqNum);
    assert (before + [p])[..|before|] == before;
  }

  /** The list in a resend pass that has dealt with the first `k` packets. */
  function PassAt(ps: seq<Packet>, k: nat, now: nat): seq<Packet>
    requires k <= |ps|
  {
    Resent(ps[..k], now) + ps[k..]
  }

  /** The packet is given up, and its number covers another one that is still held then. */
  ghost predicate Clashes(ps: seq<Packet>, k: nat, now: nat) {
    && k < |ps| && GivesUp(ps[k], now)
    && exists j :: 0 <= j < |ps| && j != k && Covered(ps[j], ps[k].seqNum) && (j > k || !GivesUp(ps[j], now))
  }

  lemma {:induction false} ResentHas(ps: seq<Packet>, j: nat, now: nat)
    requires j < |ps| && !GivesUp(ps[j], now)
    ensures Bump(ps[j], now) in Resent(ps, now)
  {
    var n := |ps| - 1;
    if j < n { ResentHas(ps[..n], j, now); }
  }

  /** When its turn comes, the acknowledgement of a packet given up removes it alone iff it does not clash. */
  lemma AloneInPass(ps: seq<Packet>, k: nat, now: nat)
    requires k < |ps| && GivesUp(ps[k], now) && Distinct(PassAt(ps, k, now))
    ensures |Acked(PassAt(ps, k, now), ps[k].seqNum)| == 1 <==> !Clashes(ps, k, now)
    ensures |Acked(PassAt(ps, k, now), ps[k].seqNum)| >= 1
  {
    hide Acked, Resent, Distinct, Covered, GivesUp;
    var before, cur, n := Resent(ps[..k], now), PassAt(ps, k, now), ps[k].seqNum;
    var i := |before|;
    assert cur[i] == ps[k];
    AckedSome(cur, i);
    GiveUpAlone(cur, i);
    if Clashes(ps, k, now) {
      OtherInPass(ps, k, now);
    } else {
      forall j | 0 <= j < |cur| && j != i ensures !Covered(cur[j], n) {
        if j < i { BumpedAlone(ps, k, j, now); } else { assert cur[j] == ps[k + (j - i)]; }
      }
    }
  }

  lemma OtherInPass(ps: seq<Packet>, k: nat, now: nat)
    requires Clashes(ps, k, now)
    ensures exists j :: 0 <= j < |PassAt(ps, k, now)| && j != |Resent(ps[..k], now)|
                        && Covered(PassAt(ps, k, now)[j], ps[k].seqNum)
  {
    hide Resent, GivesUp;
    var before, cur, n := Resent(ps[..k], now), PassAt(ps, k, now), ps[k].seqNum;
    var j :| 0 <= j < |ps| && j != k && Covered(ps[j], n) && (j > k || !GivesUp(ps[j], now));
    if j > k {
      assert cur[|before| + (j - k)] == ps[j];
    } else {
      ResentHas(ps[..k], j, now);
      var m :| 0 <= m < |before| && before[m] == Bump(ps[j], now);
      assert cur[m] == before[m] && Covered(cur[m], n);
    }
  }

  lemma BumpedAlone(ps: seq<Packet>, k: nat, j: nat, now: nat)
    requires k < |ps| && GivesUp(ps[k], now) && !Clashes(ps, k, now) && j < |Resent(ps[..k], now)|
    ensures !Covered(PassAt(ps, k, now)[j], ps[k].seqNum)
  {
    hide Resent, GivesUp;
    ResentFrom(ps[..k], now);
    var p :| p in ps[..k] && !GivesUp(p, now) && Resent(ps[..k], now)[j] == Bump(p, now);
    var q :| 0 <= q < k && ps[q] == p;
    assert !Covered(ps[q], ps[k].seqNum);
  }

  /** And then the pass goes on at the same index with the next packet. */
  lemma RemovedAlone(ps: seq<Packet>, k: nat, now: nat)
    requires k < |ps| && GivesUp(ps[k], now) && Distinct(PassAt(ps, k, now))
    requires |Acked(PassAt(ps, k, now), ps[k].seqNum)| == 1
    ensures Kept(PassAt(ps, k, now), ps[k].seqNum) == PassAt(ps, k + 1, now)
    ensures Acked(PassAt(ps, k, now), ps[k].seqNum) == [ps[k]]
    ensures |Resent(ps[..k + 1], now)| == |Resent(ps[..k], now)|
  {
    hide Acked, Kept, Resent, Distinct, Covered, GivesUp;
    var before, cur := Resent(ps[..k], now), PassAt(ps, k, now);
    var i := |before|;
    assert cur[i] == ps[k];
    GiveUpAlone(cur, i);
    OneKept(cur, i);
    OneAcked(cur, i, |cur|);
    ResendStep(ps, k, now);
    assert cur[..|cur|] == cur && cur[..i] == before && cur[i + 1..] == ps[k + 1..];
  }

  /** In the order of a monotone clock the first packet that gives up is the first of all, so that the index is stepped
      back from 0 and no packet is passed over; in serial order besides no packet clashes. */
  lemma NoneClashes(ps: seq<Packet>, k: nat, now: nat, numbered: bool)
    requires InOrder(ps, now, numbered) && k < |ps| && GivesUp(ps[k], now)
    ensures Resent(ps[..k], now) == [] && PassAt(ps, k, now) == ps[k..]
    ensures numbered ==> !Clashes(ps, k, now)
  {
    GiveUpFirst(ps, k, k, now, numbered);
    forall j | 0 <= j < |ps| && j != k ensures j < k ==> GivesUp(ps[j], now)
      ensures numbered && j > k ==> !Covered(ps[j], ps[k].seqNum)
    {
      assert j < k ==> Before(ps[j], ps[k], numbered);
      assert j > k ==> Before(ps[k], ps[j], numbered);
    }
  }

  lemma InOrderDistinct(ps: seq<Packet>, k: nat, now: nat)
    requires InOrder(ps, now, true) && k <= |ps|
    ensures Distinct(ps[k..])
  {
    forall i, j | 0 <= i < j < |ps[k..]| ensures ps[k..][i].seqNum != ps[k..][j].seqNum {
      assert Before(ps[k + i], ps[k + j], true);
    }
  }

  /** So a packet given up is the first one left, and its acknowledgement removes exactly it. */
  lemma GiveUpEffect(ps: seq<Packet>, k: nat, now: nat)
    requires InOrder(ps, now, true) && k < |ps| && GivesUp(ps[k], now)
    ensures Resent(ps[..k], now) == [] && Resent(ps[..k + 1], now) == []
    ensures Kept(ps[k..], ps[k].seqNum) == ps[k + 1..] && Acked(ps[k..], ps[k].seqNum) == [ps[k]]
  {
    NoneClashes(ps, k, now, true);
    InOrderDistinct(ps, k, now);
    hide InOrder, Distinct, Kept, Acked, Resent, Clashes, GivesUp;
    AloneInPass(ps, k, now);
    RemovedAlone(ps, k, now);
  }

  /** What the step back does otherwise: the pass goes on at index `i` of what the acknowledgement leaves, and so passes
      over as many of the packets behind as have been removed before. */
  lemma StepBack(ps: seq<Packet>, i: nat)
    requires i < |ps|
    ensures var left, gone := Kept(ps, ps[i].seqNum), |Acked(ps[..i], ps[i].seqNum)|;
            && gone <= i && i - gone <= |left|
            && left[i - gone..] == Kept(ps[i + 1..], ps[i].seqNum)
  {
    KeptAround(ps, i);
  }

  lemma {:induction false} KeptJoin(ps: seq<Packet>, qs: seq<Packet>, seqNum: nat)
    ensures Kept(ps + qs, seqNum) == Kept(ps, seqNum) + Kept(qs, seqNum)
  {
    if qs == [] {
      assert ps + qs == ps;
    } else {
      KeptJoin(ps, qs[..|qs| - 1], seqNum);
      assert (ps + qs)[..|ps + qs| - 1] == ps + qs[..|qs| - 1];
    }
  }

  class SendBuffer {
    const packets: array<Packet>
    var count: nat

    ghost function Contents(): (s: seq<Packet>)
      requires count <= packets.Length
      reads this, packets
    {
      packets[..count]
    }

    ghost predicate Valid()
      reads this, packets
    {
      count <= packets.Length && Distinct(Contents())
    }

    constructor (size: nat)
      ensures Valid() && fresh(packets) && packets.Length == size && Contents() == []
    {
      packets := new Packet[size](_ => Packet(0, 0, 0, 0));
      count := 0;
    }

    /** Takes ownership of a buffer; on an error it is freed at once. */
    method Push(seqNum: nat, buf: nat, now: nat) returns (r: PushResult, freed: seq<nat>)
      requires Valid()
      modifies this, packets
      ensures Valid()
      ensures r == if old(count) == packets.Length then Overflow
                   else if seqNum in SeqNums(old(Contents())) then InvalidData
                   else Pushed
      ensures r == Pushed ==> Contents() == old(Contents()) + [Packet(seqNum, 0, now, buf)] && freed == []
      ensures r != Pushed ==> Contents() == old(Contents()) && freed == [buf]
    {
      if count >= packets.Length {
        return Overflow, [buf];
      }
      var i := 0;
      while i < count
        invariant i <= count && forall k :: 0 <= k < i ==> packets[k].seqNum != seqNum
      {
        if packets[i].seqNum == seqNum {
          assert SeqNums(Contents())[i] == seqNum;
          return InvalidData, [buf];
        }
        i := i + 1;
      }
      packets[count] := Packet(seqNum, 0, now, buf);
      count := count + 1;
      return Pushed, [];
    }

    /** Removes all packets covered by an acknowledgement by closing the gaps in place, one `memmove` for each
        run of packets that stay. */
    method Ack(seqNum: nat) returns (acked: seq<nat>, freed: seq<nat>)
      requires Valid()
      modifies this, packets
      ensures Valid() && Contents() == Kept(old(Contents()), seqNum)
      ensures acked == SeqNums(Acked(old(Contents()), seqNum)) && freed == Bufs(Acked(old(Contents()), seqNum))
      ensures Clears(old(Contents()), seqNum, Contents(), acked, freed)
    {
      hide Clears, SeqNums, Bufs;
      ghost var ps := Contents();
      AckClears(ps, seqNum);
      var shiftStart, shift;
      acked, freed, shiftStart, shift := Sweep(ps, seqNum);
      CloseGap(ps, seqNum, shift, shiftStart);
      KeptDistinct(ps, seqNum);
    }

    /** One pass over the packets, which leaves at most the last gap open. */
    method Sweep(ghost ps: seq<Packet>, seqNum: nat)
      returns (acked: seq<nat>, freed: seq<nat>, shiftStart: Option<nat>, shift: nat)
      requires count == |ps| <= packets.Length && packets[..count] == ps
      modifies packets
      ensures Compacting(ps, seqNum, |ps|, shift, shiftStart)
      ensures acked == SeqNums(Acked(ps, seqNum)) && freed == Bufs(Acked(ps, seqNum))
    {
      acked, freed, shift, shiftStart := [], [], 0, None;
      var i := 0;
      while i < count
        invariant i <= |ps|
        invariant Compacting(ps, seqNum, i, shift, shiftStart)
        invariant acked == SeqNums(Acked(ps[..i], seqNum)) && freed == Bufs(Acked(ps[..i], seqNum))
      {
        PrefixStep(ps, seqNum, i);
        Unmoved(ps, seqNum, i, shift, shiftStart);
        if Covered(packets[i], seqNum) {
          acked, freed := acked + [packets[i].seqNum], freed + [packets[i].buf];
          shiftStart, shift := WidenGap(ps, seqNum, i, shift, shiftStart);
        } else {
          LeaveInPlace(ps, seqNum, i, shift, shiftStart);
        }
        i := i + 1;
      }
      assert ps[..i] == ps;
    }

    /** Packet `i` goes: it joins the gap, or closes the gap before it by moving the packets in between. */
    method WidenGap(ghost ps: seq<Packet>, ghost seqNum: nat, i: nat, shift: nat, shiftStart: Option<nat>)
      returns (start': Option<nat>, shift': nat)
      requires i < |ps| <= packets.Length && Covered(ps[i], seqNum)
      requires Compacting(ps, seqNum, i, shift, shiftStart)
      modifies packets
      ensures Compacting(ps, seqNum, i + 1, shift', start')
    {
      if shiftStart.None? {
        OpenGap(ps, seqNum, i);
        start', shift' := Some(i), 1;
      } else if shiftStart.value + shift == i {
        JoinGap(ps, seqNum, i, shift, shiftStart.value);
        start', shift' := shiftStart, shift + 1;
      } else {
        MoveStay(ps, seqNum, i, shift, shiftStart.value);
        start', shift' := Some(i - shift), shift + 1;
      }
    }

    lemma OpenGap(ps: seq<Packet>, seqNum: nat, i: nat)
      requires i < |ps| <= packets.Length && Covered(ps[i], seqNum) && Compacting(ps, seqNum, i, 0, None)
      ensures Compacting(ps, seqNum, i + 1, 1, Some(i))
    {
      PrefixStep(ps, seqNum, i);
      assert ps[i + 1..i + 1] == [];
      assert packets[..i] == packets[..|ps|][..i];
    }

    lemma JoinGap(ps: seq<Packet>, seqNum: nat, i: nat, shift: nat, start: nat)
      requires i < |ps| <= packets.Length && Covered(ps[i], seqNum) && start + shift == i
      requires Compacting(ps, seqNum, i, shift, Some(start))
      ensures Compacting(ps, seqNum, i + 1, shift + 1, Some(start))
    {
      PrefixStep(ps, seqNum, i);
      assert ps[i + 1..i + 1] == [] && ps[i..i] == [];
    }

    /** Moves the packets since the last gap next to those before it. */
    method MoveStay(ghost ps: seq<Packet>, ghost seqNum: nat, i: nat, shift: nat, start: nat)
      requires i < |ps| <= packets.Length && Covered(ps[i], seqNum) && start + shift < i
      requires Compacting(ps, seqNum, i, shift, Some(start))
      modifies packets
      ensures Compacting(ps, seqNum, i + 1, shift + 1, Some(i - shift))
    {
      hide Kept, Acked, Covered;
      PrefixStep(ps, seqNum, i);
      assert ps[i + 1..i + 1] == [];
      Close(ps, i, shift, start);
    }

    /** Closes a gap: what follows it moves up, and nothing behind that is touched. */
    method Close(ghost ps: seq<Packet>, i: nat, shift: nat, start: nat)
      requires start + shift < i <= |ps| <= packets.Length
      requires forall k :: start + shift <= k < |ps| ==> packets[k] == ps[k]
      modifies packets
      ensures packets[..i - shift] == old(packets[..start]) + ps[start + shift..i]
      ensures forall k :: i <= k < |ps| ==> packets[k] == ps[k]
    {
      ghost var before := packets[..start];
      Memory.Move(packets, start, start + shift, i - (start + shift));
      assert packets[..i - shift] == before + packets[start..i - shift];
    }

    lemma Unmoved(ps: seq<Packet>, seqNum: nat, i: nat, shift: nat, shiftStart: Option<nat>)
      requires i < |ps| <= packets.Length && Compacting(ps, seqNum, i, shift, shiftStart)
      ensures packets[i] == ps[i]
    {
      if shiftStart.None? { assert packets[i] == packets[..|ps|][i]; }
    }

    /** Packet `i` stays. */
    lemma LeaveInPlace(ps: seq<Packet>, seqNum: nat, i: nat, shift: nat, shiftStart: Option<nat>)
      requires i < |ps| <= packets.Length && !Covered(ps[i], seqNum)
      requires Compacting(ps, seqNum, i, shift, shiftStart)
      ensures Compacting(ps, seqNum, i + 1, shift, shiftStart)
    {
      hide Kept, Acked, Covered;
      PrefixStep(ps, seqNum, i);
      assert ps[..i + 1] == ps[..i] + [ps[i]];
      if shiftStart.Some? {
        var a := shiftStart.value + shift;
        assert ps[a..i + 1] == ps[a..i] + [ps[i]];
      }
    }

    /** The last shift. */
    method CloseGap(ghost ps: seq<Packet>, ghost seqNum: nat, shift: nat, shiftStart: Option<nat>)
      requires count == |ps| <= packets.Length && ps[..|ps|] == ps
      requires Compacting(ps, seqNum, |ps|, shift, shiftStart)
      modifies this, packets
      ensures count <= packets.Length && Contents() == Kept(ps, seqNum)
    {
      if shiftStart.Some? {
        ghost var stay := packets[..shiftStart.value] + ps[shiftStart.value + shift..|ps|];
        if shiftStart.value + shift < count {
          Memory.Move(packets, shiftStart.value, shiftStart.value + shift, count - (shiftStart.value + shift));
        }
        count := count - shift;
        assert packets[..count] == stay;
      }
    }

    /** A resend pass: every due packet is sent again, or given up after its last try by acknowledging it, for which
        there is room for one number. It gets to the end iff no acknowledgement removes another packet; else `at` is
        the packet at which it overruns that room, and all before it have had their turn. */
    method Resend(now: nat) returns (sent: seq<nat>, freed: seq<nat>, overrun: bool, ghost at: nat)
      requires Valid()
      modifies this, packets
      ensures Valid() && at <= |old(Contents())|
      ensures forall k :: 0 <= k < at ==> !Clashes(old(Contents()), k, now)
      ensures overrun <==> at < |old(Contents())|
      ensures overrun ==> Clashes(old(Contents()), at, now)
      ensures sent == SentAgain(old(Contents())[..at], now)
      ensures !overrun ==> Contents() == Resent(old(Contents()), now) && freed == GivenUp(old(Contents()), now)
      ensures !overrun ==> Passed(old(Contents()), Contents(), sent, freed, now)
      ensures overrun ==>
                var ps := PassAt(old(Contents()), at, now);
                var n := old(Contents())[at].seqNum;
                && Contents() == Kept(ps, n) && freed == GivenUp(old(Contents())[..at], now) + Bufs(Acked(ps, n))
    {
      hide Distinct, Resent, SentAgain, GivenUp, Clashes, Kept, Acked, Bufs, PassAt, GivesUp, Due, Resending, Passed;
      ghost var ps := Contents();
      PassedAll(ps, now);
      at, sent, freed, overrun := 0, [], [], false;
      var i: nat := 0;
      ResendStart(ps, now);
      while i < count
        invariant Resending(ps, at, i, now) && at <= |ps| && !overrun
        invariant forall k :: 0 <= k < at ==> !Clashes(ps, k, now)
        invariant sent == SentAgain(ps[..at], now) && freed == GivenUp(ps[..at], now)
        decreases |ps| - at
      {
        CurrentPacket(ps, at, i, now);
        ResendStep(ps, at, now);
        var m, f;
        overrun, i, m, f := ResendOne(ps, at, i, now);
        sent, freed := sent + m, freed + f;
        if overrun { return; }
        at := at + 1;
      }
      ResendDone(ps, at, i, now);
    }

    lemma ResendDone(ps: seq<Packet>, k: nat, i: nat, now: nat)
      requires Resending(ps, k, i, now) && i >= count
      ensures Valid() && k == |ps| && ps[..k] == ps && Contents() == Resent(ps, now)
    {
      hide Distinct, Resent;
      assert ps[..|ps|] == ps;
    }

    lemma ResendStart(ps: seq<Packet>, now: nat)
      requires Valid() && Contents() == ps
      ensures Resending(ps, 0, 0, now) && SentAgain(ps[..0], now) == [] && GivenUp(ps[..0], now) == []
    {
    }

    /** One turn of the pass; `next` is the next index. */
    method ResendOne(ghost ps: seq<Packet>, ghost k: nat, i: nat, now: nat)
      returns (overrun: bool, next: nat, sent: seq<nat>, freed: seq<nat>)
      requires Resending(ps, k, i, now) && i < count
      modifies this, packets
      ensures k < |ps| && Valid() && (overrun <==> Clashes(ps, k, now))
      ensures !overrun ==> Resending(ps, k + 1, next, now)
      ensures sent == if Due(ps[k], now) && !GivesUp(ps[k], now) then [ps[k].buf] else []
      ensures !overrun ==> freed == if GivesUp(ps[k], now) then [ps[k].buf] else []
      ensures overrun ==>
                && sent == [] && Contents() == Kept(PassAt(ps, k, now), ps[k].seqNum)
                && freed == Bufs(Acked(PassAt(ps, k, now), ps[k].seqNum))
    {
      hide Distinct, Resent, Kept, Acked, Bufs;
      CurrentPacket(ps, k, i, now);
      var packet := packets[i];
      overrun, sent, freed := false, [], [];
      if Due(packet, now) {
        if packet.tries >= RESEND_TRIES_MAX {
          overrun, freed := GiveUp(ps, k, i, now);
          // the index is stepped back and then forward again: the next packet is now at `i`
          return overrun, i, sent, freed;
        }
        SendAgain(ps, k, i, now);
        sent := [packet.buf];
      } else {
        NotDue(ps, k, i, now);
      }
      next := i + 1;
    }

    /** The state of a resend pass that has dealt with the first `k` packets and stands at index `i`. */
    ghost predicate Resending(ps: seq<Packet>, k: nat, i: nat, now: nat)
      reads this, packets
    {
      Valid() && k <= |ps| && i == |Resent(ps[..k], now)| && Contents() == PassAt(ps, k, now) && Distinct(ps)
    }

    lemma CurrentPacket(ps: seq<Packet>, k: nat, i: nat, now: nat)
      requires Resending(ps, k, i, now) && i < count
      ensures k < |ps| && packets[i] == ps[k]
    {
      assert Contents()[i] == ps[k];
    }

    lemma NotDue(ps: seq<Packet>, k: nat, i: nat, now: nat)
      requires Resending(ps, k, i, now) && k < |ps| && !Due(ps[k], now)
      ensures Resending(ps, k + 1, i + 1, now)
    {
      ResendStep(ps, k, now);
      assert ps[k..] == [ps[k]] + ps[k + 1..];
    }

    /** The packet at `i` is given up by acknowledging it: if that removes no other packet, room for one number
        suffices, and what comes next stands where it stood. */
    method GiveUp(ghost ps: seq<Packet>, ghost k: nat, i: nat, now: nat) returns (overrun: bool, freed: seq<nat>)
      requires Resending(ps, k, i, now) && k < |ps| && GivesUp(ps[k], now) && i < count && packets[i] == ps[k]
      modifies this, packets
      ensures Valid() && (overrun <==> Clashes(ps, k, now))
      ensures !overrun ==> Resending(ps, k + 1, i, now) && freed == [ps[k].buf]
      ensures overrun ==>
                && Contents() == Kept(PassAt(ps, k, now), ps[k].seqNum)
                && freed == Bufs(Acked(PassAt(ps, k, now), ps[k].seqNum))
    {
      hide Kept, Acked, Resent, Distinct, Clashes;
      ghost var before := Contents();
      ResendStep(ps, k, now);
      AloneInPass(ps, k, now);
      var acked;
      acked, freed := Ack(packets[i].seqNum);
      overrun := |acked| > 1;
      if !overrun { RemovedAlone(ps, k, now); }
    }

    method SendAgain(ghost ps: seq<Packet>, ghost k: nat, i: nat, now: nat)
      requires Resending(ps, k, i, now) && k < |ps| && Due(ps[k], now) && !GivesUp(ps[k], now)
      requires i < count && packets[i] == ps[k]
      modifies packets
      ensures Resending(ps, k + 1, i + 1, now)
    {
      ResendStep(ps, k, now);
      ghost var before := Contents();
      packets[i] := Bump(packets[i], now);
      assert Contents() == before[i := Bump(ps[k], now)];
    }

    /** The state of the compaction after `i` packets: what stays of them is packed before the gap of length
        `shift`, followed by those not yet moved. */
    ghost predicate Compacting(ps: seq<Packet>, seqNum: nat, i: nat, shift: nat, shiftStart: Option<nat>)
      requires i <= |ps| <= packets.Length
      reads packets
    {
      match shiftStart
      case None => shift == 0 && packets[..|ps|] == ps && Kept(ps[..i], seqNum) == ps[..i]
      case Some(start) =>
        && start + shift <= i
        && packets[..start] + ps[start + shift..i] == Kept(ps[..i], seqNum)
        && forall k :: start + shift <= k < |ps| ==> packets[k] == ps[k]
    }
  }

  lemma AckedSome(ps: seq<Packet>, k: nat)
    requires k < |ps|
    ensures |Acked(ps, ps[k].seqNum)| >= 1
  {
    KeptFrom(ps, ps[k].seqNum);
    assert ps[k] in Acked(ps, ps[k].seqNum);
  }

  lemma PrefixStep(ps: seq<Packet>, seqNum: nat, i: nat)
    requires i < |ps|
    ensures Kept(ps[..i + 1], seqNum) == Kept(ps[..i], seqNum) + if Covered(ps[i], seqNum) then [] else [ps[i]]
    ensures Acked(ps[..i + 1], seqNum) == Acked(ps[..i], seqNum) + if Covered(ps[i], seqNum) then [ps[i]] else []
    ensures SeqNums(Acked(ps[..i + 1], seqNum))
         == SeqNums(Acked(ps[..i], seqNum)) + if Covered(ps[i], seqNum) then [ps[i].seqNum] else []
    ensures Bufs(Acked(ps[..i + 1], seqNum))
         == Bufs(Acked(ps[..i], seqNum)) + if Covered(ps[i], seqNum) then [ps[i].buf] else []
  {
    assert ps[..i + 1][..i] == ps[..i];
  }

  /** What happens to a retransmit buffer. */
  datatype Action =
    | Push(seqNum: nat, buf: nat, now: nat)
    | Ack(seqNum: nat)
    | Resend(now: nat)

  /** The buffer as its owner sees it. */
  datatype View = View(
    held: seq<Packet>,
    clock: nat,         // the time last seen
    freed: seq<nat>,    // the buffers freed, in order
    sent: seq<nat>)     // the buffers sent again, in order

  function Step(v: View, a: Action, size: nat): View {
    match a
    case Push(seqNum, buf, now) =>
      if |v.held| >= size || seqNum in SeqNums(v.held) then v.(clock := now, freed := v.freed + [buf])
      else v.(clock := now, held := v.held + [Packet(seqNum, 0, now, buf)])
    case Ack(seqNum) =>
      v.(held := Kept(v.held, seqNum), freed := v.freed + Bufs(Acked(v.held, seqNum)))
    case Resend(now) =>
      View(Resent(v.held, now), now, v.freed + GivenUp(v.held, now), v.sent + SentAgain(v.held, now))
  }

  function Observe(script: seq<Action>, size: nat): View {
    if script == [] then View([], 0, [], [])
    else Step(Observe(script[..|script| - 1], size), script[|script| - 1], size)
  }

  /** What one action does, said of the packets and their true numbers. */
  ghost predicate Moves(v: View, a: Action, w: View, size: nat) {
    match a
    case Push(seqNum, buf, now) =>
      if |v.held| < size && forall i :: 0 <= i < |v.held| ==> v.held[i].seqNum != seqNum then
        w == View(v.held + [Packet(seqNum, 0, now, buf)], now, v.freed, v.sent)
      else
        w == View(v.held, now, v.freed + [buf], v.sent)
    case Ack(seqNum) =>
      exists gone, freed ::
        w == View(w.held, v.clock, v.freed + freed, v.sent) && Clears(v.held, seqNum, w.held, gone, freed)
    case Resend(now) =>
      exists sent, freed ::
        w == View(w.held, now, v.freed + freed, v.sent + sent) && Passed(v.held, w.held, sent, freed, now)
  }

  ghost predicate Clears(ps: seq<Packet>, seqNum: nat, left: seq<Packet>, gone: seq<nat>, freed: seq<nat>) {
    forall xs, n :: Numbered(ps, seqNum, xs, n) ==> UpTo(ps, left, gone, freed, xs, n)
  }

  /** The views of a run that does these actions one after the other. */
  ghost predicate Ran(script: seq<Action>, views: seq<View>, size: nat) {
    && |views| == |script| + 1 && views[0] == View([], 0, [], [])
    && forall k :: 0 <= k < |script| ==> Moves(views[k], script[k], views[k + 1], size)
  }

  lemma StepMoves(v: View, a: Action, size: nat)
    ensures Moves(v, a, Step(v, a, size), size)
  {
    hide Clears, Passed;
    match a
    case Push(seqNum, buf, now) =>
      forall i | 0 <= i < |v.held| ensures v.held[i].seqNum == SeqNums(v.held)[i] {}
    case Ack(seqNum) => AckClears(v.held, seqNum);
    case Resend(now) => PassedAll(v.held, now);
  }

  lemma AckClears(ps: seq<Packet>, seqNum: nat)
    ensures Clears(ps, seqNum, Kept(ps, seqNum), SeqNums(Acked(ps, seqNum)), Bufs(Acked(ps, seqNum)))
  {
    hide UpTo;
    forall xs, n | Numbered(ps, seqNum, xs, n)
      ensures UpTo(ps, Kept(ps, seqNum), SeqNums(Acked(ps, seqNum)), Bufs(Acked(ps, seqNum)), xs, n)
    {
      AckUpTo(ps, seqNum, xs, n);
    }
  }

  /** The views of every run are made up of such moves. */
  lemma {:induction false} ObserveMoves(script: seq<Action>, size: nat) returns (views: seq<View>)
    ensures Ran(script, views, size) && views[|script|] == Observe(script, size)
  {
    if script == [] {
      views := [Observe(script, size)];
    } else {
      hide Moves, Step;
      var m := |script| - 1;
      views := ObserveMoves(script[..m], size);
      StepMoves(views[m], script[m], size);
      views := RanMore(script, views, Observe(script, size), size);
    }
  }

  lemma RanMore(script: seq<Action>, views: seq<View>, w: View, size: nat) returns (more: seq<View>)
    requires script != [] && Ran(script[..|script| - 1], views, size)
    requires Moves(views[|script| - 1], script[|script| - 1], w, size)
    ensures Ran(script, more, size) && more[|script|] == w
  {
    hide Moves;
    more := views + [w];
    forall k | 0 <= k < |script| ensures Moves(more[k], script[k], more[k + 1], size) {
      if k < |script| - 1 { assert Moves(views[k], script[..|script| - 1][k], views[k + 1], size); }
    }
  }

  /** The clock does not run backwards, and packets are pushed in increasing serial order if they are `numbered` so. */
  predicate Possible(v: View, a: Action, numbered: bool) {
    match a
    case Push(seqNum, buf, now) =>
      && now >= v.clock
      && (numbered ==> forall i :: 0 <= i < |v.held| ==> SeqNum.Lt(SeqNum.MOD32, v.held[i].seqNum, seqNum))
    case Ack(_) => true
    case Resend(now) => now >= v.clock
  }

  predicate Admissible(script: seq<Action>, size: nat, numbered: bool) {
    forall k :: 0 <= k < |script| ==> Possible(Observe(script[..k], size), script[k], numbered)
  }

  /** Packet 6 is pushed and sent again so many times. */
  function Retried(n: nat): seq<Action> {
    if n == 0 then [Push(6, 1, 0)] else Retried(n - 1) + [Resend(300 * n)]
  }

  lemma {:induction false} RetriedHeld(n: nat, size: nat)
    requires n <= RESEND_TRIES_MAX && size >= 2
    ensures Observe(Retried(n), size).held == [Packet(6, n, 300 * n, 1)] && Observe(Retried(n), size).clock == 300 * n
    ensures Admissible(Retried(n), size, true)
  {
    hide Admissible, Observe;
    if n == 0 {
      assert [] + [Push(6, 1, 0)] == Retried(0);
      ObservesNothing(size);
      AdmissibleMore([], Push(6, 1, 0), size, true);
    } else {
      var before := Retried(n - 1);
      RetriedHeld(n - 1, size);
      AdmissibleMore(before, Resend(300 * n), size, true);
      assert [Packet(6, n - 1, 300 * (n - 1), 1)][..0] == [];
    }
  }

  lemma ObservesNothing(size: nat)
    ensures Observe([], size) == View([], 0, [], []) && Admissible([], size, true)
  {
  }

  lemma NumberedOrNot(script: seq<Action>, size: nat)
    requires Admissible(script, size, true)
    ensures Admissible(script, size, false)
  {
  }

  lemma AdmissibleMore(script: seq<Action>, a: Action, size: nat, numbered: bool)
    requires Admissible(script, size, numbered) && Possible(Observe(script, size), a, numbered)
    ensures Admissible(script + [a], size, numbered)
    ensures Observe(script + [a], size) == Step(Observe(script, size), a, size)
  {
    var all := script + [a];
    forall k | 0 <= k < |all| ensures Possible(Observe(all[..k], size), all[k], numbered) {
      if k < |script| { assert all[..k] == script[..k]; } else { assert all[..k] == script; }
    }
    assert all[..|script|] == script;
  }

  /** Two senders can push their packets in the opposite order of their numbers: packet 6 has had all its tries when 5
      is pushed. The next pass gives 6 up, and its acknowledgement removes 5 as well, which is not even due; two
      numbers are written where there is room for one. */
  lemma OutOfOrderGiveUp(size: nat)
    requires size >= 2
    ensures var script := Retried(RESEND_TRIES_MAX) + [Push(5, 2, 3100)];
            var held := Observe(script, size).held;
            && Observe(script, size).clock == 3100
            && held == [Packet(6, RESEND_TRIES_MAX, 3000, 1), Packet(5, 0, 3100, 2)]
            && GivesUp(held[0], 3300) && !Due(held[1], 3300)
            && Kept(held, 6) == [] && SeqNums(Acked(held, 6)) == [6, 5]
            && Admissible(script, size, false) && Faults(Observe(script, size), Resend(3300))
  {
    hide Retried, Admissible, Kept, Acked, Resent, GivenUp, SentAgain;
    var before := Retried(RESEND_TRIES_MAX);
    var script := before + [Push(5, 2, 3100)];
    RetriedHeld(RESEND_TRIES_MAX, size);
    assert script[..|before|] == before;
    NumberedOrNot(before, size);
    AdmissibleMore(before, Push(5, 2, 3100), size, false);
    var held := Observe(script, size).held;
    assert held == [Packet(6, RESEND_TRIES_MAX, 3000, 1), Packet(5, 0, 3100, 2)];
    assert Covered(held[1], held[0].seqNum) && Clashes(held, 0, 3300);
    BothAcked(Packet(6, RESEND_TRIES_MAX, 3000, 1), Packet(5, 0, 3100, 2));
  }

  lemma BothAcked(p: Packet, q: Packet)
    requires Covered(q, p.seqNum)
    ensures Kept([p, q], p.seqNum) == [] && SeqNums(Acked([p, q], p.seqNum)) == [p.seqNum, q.seqNum]
  {
    assert [p, q][..1] == [p] && [p][..0] == [];
  }

  lemma InOrderLater(ps: seq<Packet>, t: nat, now: nat, numbered: bool)
    requires InOrder(ps, t, numbered) && t <= now
    ensures InOrder(ps, now, numbered)
  {}

  lemma StepInOrder(v: View, a: Action, size: nat, numbered: bool)
    requires InOrder(v.held, v.clock, numbered) && Possible(v, a, numbered)
    ensures InOrder(Step(v, a, size).held, Step(v, a, size).clock, numbered)
  {
    match a
    case Push(seqNum, buf, now) => InOrderLater(v.held, v.clock, now, numbered);
    case Ack(seqNum) => KeptInOrder(v.held, seqNum, v.clock, numbered);
    case Resend(now) =>
      InOrderLater(v.held, v.clock, now, numbered);
      ResentInOrder(v.held, now, numbered);
  }

  /** The invariant of every run under a monotone clock: earlier packets have been tried more often; and in serial
      order if they are pushed in that order. */
  lemma {:induction false} RunInOrder(script: seq<Action>, size: nat, numbered: bool)
    requires Admissible(script, size, numbered)
    ensures InOrder(Observe(script, size).held, Observe(script, size).clock, numbered)
  {
    if script != [] {
      hide InOrder, Admissible, Possible, Step;
      var rest := script[..|script| - 1];
      AdmissiblePrefix(script, size, |script| - 1, numbered);
      AdmissibleLast(script, size, numbered);
      RunInOrder(rest, size, numbered);
      StepInOrder(Observe(rest, size), script[|script| - 1], size, numbered);
    }
  }

  lemma AdmissibleLast(script: seq<Action>, size: nat, numbered: bool)
    requires Admissible(script, size, numbered) && script != []
    ensures Possible(Observe(script[..|script| - 1], size), script[|script| - 1], numbered)
  {
  }

  lemma AdmissiblePrefix(script: seq<Action>, size: nat, n: nat, numbered: bool)
    requires Admissible(script, size, numbered) && n <= |script|
    ensures Admissible(script[..n], size, numbered)
  {
    forall k | 0 <= k < n ensures Possible(Observe(script[..n][..k], size), script[..n][k], numbered) {
      assert script[..n][..k] == script[..k];
    }
  }

  function PushedBufs(script: seq<Action>): seq<nat> {
    if script == [] then []
    else
      var a := script[|script| - 1];
      PushedBufs(script[..|script| - 1]) + if a.Push? then [a.buf] else []
  }

  lemma BufsAppend(ps: seq<Packet>, p: Packet)
    ensures Bufs(ps + [p]) == Bufs(ps) + [p.buf]
  {}

  lemma {:induction false} AckConserves(ps: seq<Packet>, seqNum: nat)
    ensures multiset(Bufs(ps)) == multiset(Bufs(Kept(ps, seqNum))) + multiset(Bufs(Acked(ps, seqNum)))
  {
    if ps != [] {
      var rest, p := ps[..|ps| - 1], ps[|ps| - 1];
      AckConserves(rest, seqNum);
      assert ps == rest + [p];
      BufsAppend(rest, p);
      if Covered(p, seqNum) {
        BufsAppend(Acked(rest, seqNum), p);
        assert Kept(ps, seqNum) == Kept(rest, seqNum);
      } else {
        BufsAppend(Kept(rest, seqNum), p);
        assert Acked(ps, seqNum) == Acked(rest, seqNum);
      }
    }
  }

  lemma {:induction false} ResendConserves(ps: seq<Packet>, now: nat)
    ensures multiset(Bufs(ps)) == multiset(Bufs(Resent(ps, now))) + multiset(GivenUp(ps, now))
  {
    if ps != [] {
      var rest, p := ps[..|ps| - 1], ps[|ps| - 1];
      ResendConserves(rest, now);
      assert ps == rest + [p];
      BufsAppend(rest, p);
      if GivesUp(p, now) {
        assert Resent(ps, now) == Resent(rest, now);
      } else {
        BufsAppend(Resent(rest, now), Bump(p, now));
        assert GivenUp(ps, now) == GivenUp(rest, now);
      }
    }
  }

  /** Every buffer handed over is freed or still held: exactly one of these, exactly once. */
  lemma {:induction false} BuffersConserved(script: seq<Action>, size: nat)
    ensures multiset(PushedBufs(script))
         == multiset(Observe(script, size).freed) + multiset(Bufs(Observe(script, size).held))
  {
    if script != [] {
      var rest, a := script[..|script| - 1], script[|script| - 1];
      BuffersConserved(rest, size);
      StepConserves(Observe(rest, size), a, size);
    }
  }

  lemma StepConserves(v: View, a: Action, size: nat)
    ensures multiset(Step(v, a, size).freed) + multiset(Bufs(Step(v, a, size).held))
         == multiset(v.freed) + multiset(Bufs(v.held)) + if a.Push? then multiset{a.buf} else multiset{}
  {
    match a
    case Push(seqNum, buf, now) =>
      var p := Packet(seqNum, 0, now, buf);
      assert Bufs(v.held + [p]) == Bufs(v.held) + [buf];
    case Ack(seqNum) => AckConserves(v.held, seqNum);
    case Resend(now) => ResendConserves(v.held, now);
  }

  /** A resend pass that overruns the room for an acknowledgement ends the run. */
  ghost predicate Faults(v: View, a: Action) {
    a.Resend? && exists k :: 0 <= k < |v.held| && Clashes(v.held, k, a.now)
  }

  /** How far a script gets, once `k` of its actions are done: to its end or to the first fault. */
  ghost function Reached(script: seq<Action>, size: nat, k: nat): (n: nat)
    requires k <= |script|
    ensures k <= n <= |script|
    ensures forall j :: k <= j < n ==> !Faults(Observe(script[..j], size), script[j])
    ensures n < |script| ==> Faults(Observe(script[..n], size), script[n])
    decreases |script| - k
  {
    if k == |script| || Faults(Observe(script[..k], size), script[k]) then k else Reached(script, size, k + 1)
  }

  /** With numbers pushed in increasing order no pass overruns. */
  lemma NeverFaults(script: seq<Action>, size: nat)
    requires Admissible(script, size, true)
    ensures Reached(script, size, 0) == |script|
  {
    hide InOrder, Clashes;
    forall j | 0 <= j < |script| ensures !Faults(Observe(script[..j], size), script[j]) {
      AdmissiblePrefix(script, size, j, true);
      RunInOrder(script[..j], size, true);
      assert Possible(Observe(script[..j], size), script[j], true);
      NoFault(Observe(script[..j], size), script[j]);
    }
  }

  lemma NoFault(v: View, a: Action)
    requires InOrder(v.held, v.clock, true) && Possible(v, a, true)
    ensures !Faults(v, a)
  {
    if a.Resend? {
      InOrderLater(v.held, v.clock, a.now, true);
      forall k | 0 <= k < |v.held| ensures !Clashes(v.held, k, a.now) {
        if GivesUp(v.held[k], a.now) { NoneClashes(v.held, k, a.now, true); }
      }
    }
  }

  /** In every run under a monotone clock, in whatever order packets are pushed, the array is what the owner sees, and
      the same buffers are freed and sent again, up to the first overrun; if packets are pushed in increasing order
      there is none. */
  method RunScript(size: nat, script: seq<Action>)
    returns (held: seq<Packet>, freed: seq<nat>, sent: seq<nat>, completed: bool)
    requires Admissible(script, size, false)
    ensures completed <==> Reached(script, size, 0) == |script|
    ensures Admissible(script, size, true) ==> completed
    ensures var v := Observe(script[..Reached(script, size, 0)], size);
            && held == v.held && |held| <= size && Distinct(held) && freed == v.freed && sent == v.sent
    ensures exists views ::
              && Ran(script[..Reached(script, size, 0)], views, size)
              && RanTo(views[|views| - 1], held, freed, sent)
  {
    held, freed, sent, completed := Perform(size, script);
    ghost var views := ObserveMoves(script[..Reached(script, size, 0)], size);
    hide Ran, Observe, Distinct, Faults;
    assert Ran(script[..Reached(script, size, 0)], views, size) && RanTo(views[|views| - 1], held, freed, sent);
  }

  method Perform(size: nat, script: seq<Action>)
    returns (held: seq<Packet>, freed: seq<nat>, sent: seq<nat>, completed: bool)
    requires Admissible(script, size, false)
    ensures completed <==> Reached(script, size, 0) == |script|
    ensures Admissible(script, size, true) ==> completed
    ensures var v := Observe(script[..Reached(script, size, 0)], size);
            && held == v.held && |held| <= size && Distinct(held) && freed == v.freed && sent == v.sent
  {
    hide Faults, Distinct, Admissible, Possible;
    var b := new SendBuffer(size);
    held, freed, sent, completed := [], [], [], true;
    var k := 0;
    assert script[..0] == [] && Distinct([]);
    while k < |script|
      invariant k <= |script| && fresh(b) && fresh(b.packets) && b.Valid() && b.packets.Length == size
      invariant b.Contents() == held == Observe(script[..k], size).held && |held| <= size && Distinct(held)
      invariant freed == Observe(script[..k], size).freed && sent == Observe(script[..k], size).sent
      invariant Reached(script, size, k) == Reached(script, size, 0)
    {
      assert script[..k + 1][..k] == script[..k];
      var f, m;
      completed, f, m := Act(b, script[k], Observe(script[..k], size));
      if !completed { break; }
      freed, sent := freed + f, sent + m;
      held := b.packets[..b.count];
      k := k + 1;
    }
    if k == |script| { assert script[..k] == script; }
    if Admissible(script, size, true) { NeverFaults(script, size); }
  }

  ghost predicate RanTo(v: View, held: seq<Packet>, freed: seq<nat>, sent: seq<nat>) {
    v.held == held && v.freed == freed && v.sent == sent
  }

  method Act(b: SendBuffer, a: Action, ghost v: View) returns (completed: bool, freed: seq<nat>, sent: seq<nat>)
    requires b.Valid() && b.Contents() == v.held
    modifies b, b.packets
    ensures b.Valid() && (completed <==> !Faults(v, a))
    ensures completed ==>
              && b.Contents() == Step(v, a, b.packets.Length).held
              && v.freed + freed == Step(v, a, b.packets.Length).freed
              && v.sent + sent == Step(v, a, b.packets.Length).sent
  {
    hide Distinct, Clashes;
    completed, freed, sent := true, [], [];
    match a
    case Push(seqNum, buf, now) =>
      var r;
      r, freed := b.Push(seqNum, buf, now);
    case Ack(seqNum) =>
      var acked;
      acked, freed := b.Ack(seqNum);
    case Resend(now) =>
      var overrun;
      ghost var at;
      sent, freed, overrun, at := b.Resend(now);
      assert v.held[..|v.held|] == v.held;
      completed := !overrun;
  }
}
