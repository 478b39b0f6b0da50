/** The reorder queue: a ring indexed by wrapping sequence numbers that behaves like a finite map
    from true (unwrapped) packet numbers to packets, restricted to a sliding window. */
module ReorderQueue {
  import opened Basics
  import SeqNum

  /** One slot of the ring; `user` is None for the NULL pointer. Slots outside the window keep
      whatever flag they had when they left it. */
  datatype Entry<T> = Entry(filled: bool, user: Option<T>)

  /** One invocation of the drop callback. */
  datatype Drop<T> = Drop(seqNum: int, user: Option<T>)

  datatype DropStrategy = DropBegin | DropEnd

  datatype Found<T> = NotFound | Found(index: nat, seqNum: int, user: T)

  /** What a peek finds out. Its caller gives it a place for the number and one for the packet, and it writes to
      both without looking: a place not given is a write through a null pointer. */
  datatype Peeked<T> = Missing | Fault | Seen(seqNum: int, user: T)

  /** The drop callbacks for the packets numbered lo (inclusive) to hi (exclusive), in order, when number k
      goes by the name `names(k)`. */
  ghost function DropsBetween<T>(items: map<int, T>, lo: int, hi: int, names: int -> int): seq<Drop<T>>
    decreases hi - lo
  {
    if lo >= hi then []
    else DropsBetween(items, lo, hi - 1, names)
         + if hi - 1 in items then [Drop(names(hi - 1), Some(items[hi - 1]))] else []
  }

  lemma {:induction false} NoDropsBetween<T>(items: map<int, T>, lo: int, mid: int, hi: int, names: int -> int)
    requires lo <= mid <= hi
    requires forall k :: mid <= k < hi ==> k !in items
    ensures DropsBetween(items, lo, hi, names) == DropsBetween(items, lo, mid, names)
    decreases hi - mid
  {
    if mid < hi { NoDropsBetween(items, lo, mid, hi - 1, names); }
  }

  /** The drops are the packets `ks`, in order: all those numbered lo (inclusive) to hi (exclusive). */
  ghost predicate DropsAt<T>(items: map<int, T>, lo: int, hi: int, names: int -> int, drops: seq<Drop<T>>,
                             ks: seq<int>) {
    && |ks| == |drops|
    && (forall i :: 0 <= i < |ks| ==>
          lo <= ks[i] < hi && ks[i] in items && drops[i] == Drop(names(ks[i]), Some(items[ks[i]])))
    && (forall i, j :: 0 <= i < j < |ks| ==> ks[i] < ks[j])
    && (forall k :: lo <= k < hi && k in items ==> k in ks)
  }

  ghost predicate DropsAll<T>(items: map<int, T>, lo: int, hi: int, names: int -> int, drops: seq<Drop<T>>) {
    exists ks :: DropsAt(items, lo, hi, names, drops, ks)
  }

  lemma {:induction false} DropsAreAll<T>(items: map<int, T>, lo: int, hi: int, names: int -> int)
    ensures DropsAll(items, lo, hi, names, DropsBetween(items, lo, hi, names))
    decreases hi - lo
  {
    if lo >= hi {
      assert DropsAt(items, lo, hi, names, DropsBetween(items, lo, hi, names), []);
    } else {
      hide DropsAt, DropsAll;
      DropsAreAll(items, lo, hi - 1, names);
      DropsMore(items, lo, hi, names, DropsBetween(items, lo, hi - 1, names));
    }
  }

  lemma DropsMore<T>(items: map<int, T>, lo: int, hi: int, names: int -> int, drops: seq<Drop<T>>)
    requires lo < hi && DropsAll(items, lo, hi - 1, names, drops)
    ensures DropsAll(items, lo, hi, names,
                     drops + if hi - 1 in items then [Drop(names(hi - 1), Some(items[hi - 1]))] else [])
  {
    var ks :| DropsAt(items, lo, hi - 1, names, drops, ks);
    if hi - 1 in items {
      DropsNext(items, lo, hi, names, drops, ks);
    } else {
      assert drops + [] == drops;
      assert DropsAt(items, lo, hi, names, drops, ks);
    }
  }

  lemma DropsNext<T>(items: map<int, T>, lo: int, hi: int, names: int -> int, drops: seq<Drop<T>>, ks: seq<int>)
    requires lo < hi && hi - 1 in items && DropsAt(items, lo, hi - 1, names, drops, ks)
    ensures DropsAt(items, lo, hi, names, drops + [Drop(names(hi - 1), Some(items[hi - 1]))], ks + [hi - 1])
  {
    var more := ks + [hi - 1];
    forall k | lo <= k < hi && k in items ensures k in more {
      if k < hi - 1 { assert k in ks; } else { assert more[|ks|] == k; }
    }
  }

  /** A packet numbered `a` has been let into a window from `pos` on with room for `size`. The window has moved on
      just so far that the packet fits, and begins with it if nothing would be left; all packets it has passed were
      dropped. */
  ghost predicate LetIn<T>(items: map<int, T>, pos: int, count: nat, size: nat, a: int, user: T,
                           items': map<int, T>, pos': int, count': nat, names: int -> int, drops: seq<Drop<T>>) {
    && pos' == (if a - pos < size then pos else if a + 1 - size < pos + count then a + 1 - size else a)
    && pos' + count' == Max(pos + count, a + 1)
    && (forall k :: k in items' <==> k == a || (k in items && k >= pos'))
    && (forall k :: k in items' ==> items'[k] == if k == a then user else items[k])
    && DropsAll(items, pos, pos', names, drops)
  }

  lemma LetInIs<T>(items: map<int, T>, pos: int, count: nat, size: nat, a: int, user: T,
                   items': map<int, T>, pos': int, count': nat, names: int -> int, drops: seq<Drop<T>>)
    requires pos' == if a < pos + size then pos else if a + 1 - size >= pos + count then a else a + 1 - size
    requires items' == From(items, pos')[a := user] && count' == Max(pos + count, a + 1) - pos'
    requires drops == DropsBetween(items, pos, pos', names)
    ensures LetIn(items, pos, count, size, a, user, items', pos', count', names, drops)
  {
    hide DropsBetween, DropsAll;
    DropsAreAll(items, pos, pos', names);
  }

  /** The packets numbered `lo` and up. */
  ghost function From<T>(items: map<int, T>, lo: int): map<int, T> {
    map k | k in items && lo <= k :: items[k]
  }

  ghost predicate LeastOf<T>(items: map<int, T>, a: int) {
    a in items && NoneBefore(items, a)
  }

  ghost predicate NoneBefore<T>(items: map<int, T>, a: int) {
    forall k :: k in items ==> a <= k
  }

  lemma LeastAfterPut<T>(items: map<int, T>, a: int, user: T, least: int)
    requires items == map[] || LeastOf(items, least)
    ensures LeastOf(items[a := user], if items == map[] || a < least then a else least)
  {}

  lemma ScanIsLeast<T>(items: map<int, T>, start: int, a: int)
    requires a in items && start <= a
    requires forall k :: start <= k < a ==> k !in items
    ensures LeastOf(items, a) <==> NoneBefore(items, start)
  {}

  lemma FromStep<T>(items: map<int, T>, lo: int, n: int, names: int -> int)
    requires lo <= n
    ensures From(From(items, n), n + 1) == From(items, n + 1)
    ensures n in From(items, n) <==> n in items
    ensures DropsBetween(items, lo, n + 1, names)
         == DropsBetween(items, lo, n, names) + if n in items then [Drop(names(n), Some(items[n]))] else []
  {}

  class ReorderQueue<T(0)> {
    const modulus: nat
    /** Whether sums of numbers are reduced: those of 32 bits are, but C adds two of 16 bits as `int`. */
    const reduces: bool
    const size: nat
    const ring: array<Entry<T>>
    var begin: int
    var count: nat
    var dropStrategy: DropStrategy
    var firstSetHint: Option<nat>

    /** The true number of the packet at the head of the window; `begin` is its residue, or the modulus itself
        instead of 0 if sums are not reduced. */
    ghost var pos: int
    /** The packets held, by true number. */
    ghost var items: map<int, T>

    function Slot(a: int): (i: int)
      requires size > 0
    {
      a % size
    }

    ghost predicate Shape()
      reads this, ring
    {
      && size > 0 && modulus % 2 == 0 && modulus % size == 0 && 2 * size < modulus
      && ring.Length == size
      && count <= size
      && 0 <= begin <= modulus && begin % modulus == pos % modulus && (reduces ==> begin < modulus)
      && (firstSetHint.Some? ==> firstSetHint.value < size)
      && forall a :: pos <= a < pos + count && ring[Slot(a)].filled ==> ring[Slot(a)].user.Some?
    }

    /** A nonempty window always ends in a received packet. */
    ghost predicate Framed()
      reads this, ring
    {
      Shape() && (count > 0 ==> ring[Slot(pos + count - 1)].filled)
    }

    /** The first `n` numbers of the window. */
    ghost function Window(n: nat): map<int, T>
      requires Shape() && n <= count
      reads this, ring
    {
      if n == 0 then map[]
      else if ring[Slot(pos + n - 1)].filled then Window(n - 1)[pos + n - 1 := ring[Slot(pos + n - 1)].user.value]
      else Window(n - 1)
    }

    /** The ring represents `items`. */
    ghost predicate Valid()
      reads this, ring
    {
      Framed() && items == Window(count)
    }

    lemma WindowIsItems()
      requires Shape()
      ensures Window(count) == Items()
    {
      WindowAt(count);
    }

    lemma WindowAt(n: nat)
      requires Shape() && n <= count
      ensures Window(n) == map a | pos <= a < pos + n && ring[Slot(a)].filled :: ring[Slot(a)].user.value
    {
      if n > 0 { WindowAt(n - 1); }
    }

    /** The packets found in the ring, by true number. */
    ghost function Items(): (m: map<int, T>)
      requires Shape()
      reads this, ring
    {
      map a | pos <= a < pos + count && ring[Slot(a)].filled :: ring[Slot(a)].user.value
    }

    /** A number that can be told from its residue given the head of the window. */
    ghost predicate Near(a: int)
      reads this
    {
      -(modulus / 2) < a - pos < modulus / 2
    }

    /** The hint points at the first packet of the window (or is invalid for an empty window). */
    ghost predicate HintExact()
      reads this
    {
      HintExactFor(items)
    }

    ghost predicate HintExactFor(held: map<int, T>)
      reads this`count, this`firstSetHint, this`pos
    {
      if count == 0 then firstSetHint == None
      else firstSetHint.Some? && LeastOf(held, pos + firstSetHint.value)
    }

    /** The window is empty iff no packet is held, and otherwise it ends with the last packet. */
    lemma CountIsExtent()
      requires Valid()
      ensures count == 0 <==> items == map[]
      ensures count > 0 ==> pos + count - 1 in items && forall k :: k in items ==> pos <= k <= pos + count - 1
    {
      WindowIsItems();
      if count > 0 { assert pos + count - 1 in items; }
    }

    /** The sum of two numbers as the queue computes it. */
    function Plus(x: int, i: int): int
      requires modulus > 0
    {
      SeqNum.Sum(modulus, reduces, x, i)
    }

    /** What the queue calls number `a` after counting up to it from `from`: its residue, or that plus the modulus
        when a sum not reduced has passed the modulus on the way. */
    function Name(from: int, a: int): int
      requires modulus > 0
    {
      if reduces || from % modulus + (a - from) < modulus then a % modulus else a % modulus + modulus
    }

    /** What the queue calls the numbers it reaches one by one from the head. */
    ghost function HeadNames(): int -> int
      requires modulus > 0
      reads this
    {
      var first, name := pos, begin;
      a => if a == first then name else Name(a - 1, a)
    }

    /** The two comparisons, of the residues only. */
    predicate Before(x: int, y: int)
      requires modulus > 0
    {
      SeqNum.Lt(modulus, x % modulus, y % modulus)
    }

    predicate After(x: int, y: int)
      requires modulus > 0
    {
      SeqNum.Gt(modulus, x % modulus, y % modulus)
    }

    /** ... but here equal residues do not suffice. */
    predicate EqualOrAfter(x: int, y: int)
      requires modulus > 0
    {
      x == y || After(x, y)
    }

    lemma ResidueSlot(x: int, a: int)
      requires size > 0 && modulus > 0 && modulus % size == 0 && x % modulus == a % modulus
      ensures x % size == Slot(a)
    {
      SeqNum.ModMod(a, modulus, size);
      SeqNum.ModMod(x, modulus, size);
    }

    /** The sum of a number that stands for `a` and `i` leads to the slot of `a + i`, and is what the queue calls that:
        its residue iff sums are reduced or this one stays below the modulus. */
    lemma PlusIs(x: int, a: int, i: int)
      requires size > 0 && modulus % size == 0 && 0 <= i < modulus && x % modulus == a % modulus
      ensures Plus(x, i) % modulus == (a + i) % modulus && Plus(x, i) % size == Slot(a + i)
      ensures Plus(x, i) == Name(a, a + i) && 0 <= Plus(x, i)
      ensures Plus(x, i) == (a + i) % modulus <==> reduces || a % modulus + i < modulus
    {
      SeqNum.SumIs(modulus, reduces, a, i);
      SeqNum.ModStep(modulus, a, i);
      SeqNum.DivModUnique(modulus, 0, i);
      ResidueSlot(Plus(x, i), a + i);
    }

    /** Changing one slot changes no other packet of the window. */
    lemma SlotDistinct(a: int, b: int)
      requires size > 0 && Slot(a) == Slot(b) && b - a < size && a - b < size
      ensures a == b
    {
      SeqNum.ModDistinct(size, a, b);
    }

    lemma Serial(x: int, y: int, a: int, b: int)
      requires modulus > 0 && modulus % 2 == 0 && -(modulus / 2) < b - a < modulus / 2
      requires x % modulus == a % modulus && y % modulus == b % modulus
      ensures Before(x, y) <==> a < b
      ensures After(x, y) <==> a > b
      ensures x == y ==> a == b
    {
      SeqNum.SerialOrder(modulus, a, b);
    }

    /** A number pushed is reduced, so it is its own residue. */
    lemma ResidueIs(seqNum: int, a: int)
      requires modulus > 0 && seqNum == a % modulus
      ensures seqNum % modulus == a % modulus
    {
      SeqNum.DivModUnique(modulus, 0, seqNum);
    }

    constructor (modulus: nat, reduces: bool, size: nat, seqNumStart: int)
      requires size > 0 && modulus % 2 == 0 && modulus % size == 0 && 2 * size < modulus
      requires 0 <= seqNumStart < modulus
      ensures Valid() && fresh(ring)
      ensures this.modulus == modulus && this.reduces == reduces && this.size == size
      ensures begin == pos == seqNumStart && count == 0 && items == map[]
      ensures dropStrategy == DropEnd && HintExact()
    {
      this.modulus, this.reduces, this.size := modulus, reduces, size;
      ring := new Entry<T>[size](_ => Entry(false, None));
      begin, count, pos, items := seqNumStart, 0, seqNumStart, map[];
      dropStrategy, firstSetHint := DropEnd, None;
      new;
      SeqNum.DivModUnique(modulus, 0, seqNumStart);
    }

    /** The scan misses this number of the window: it expects 0 but meets the modulus. */
    ghost predicate Missed(a: int)
      requires modulus > 0
      reads this`pos, this`begin
    {
      !reduces && a % modulus == 0 && !(a == pos && begin == 0)
    }

    /** Linear scan for the offset of a sequence number in the window. */
    method OffsetForSeq(seqNum: int, ghost a: int) returns (offset: Option<nat>)
      requires Shape() && seqNum == a % modulus && pos <= a < pos + count
      ensures offset == if Missed(a) then None else Some(a - pos)
    {
      ghost var names := HeadNames();
      var cur, i := begin, 0;
      while i < count
        invariant i <= count && cur == names(pos + i) && cur % modulus == (pos + i) % modulus
        invariant i <= a - pos || Missed(a)
      {
        ScanStep(pos + i, a, names);
        if cur == seqNum { return Some(i); }
        PlusIs(cur, pos + i, 1);
        cur := Plus(cur, 1);
        i := i + 1;
      }
      return None;
    }

    /** The scan stops at the number it looks for, unless that is missed. */
    lemma ScanStep(k: int, a: int, names: int -> int)
      requires modulus > 1 && modulus % 2 == 0 && pos <= k && pos <= a && -(modulus / 2) < a - k < modulus / 2
      requires 0 <= begin <= modulus && begin % modulus == pos % modulus && (reduces ==> begin < modulus)
      requires names == HeadNames() && names(k) % modulus == k % modulus
      ensures names(k) == a % modulus <==> k == a && !Missed(a)
    {
      ResidueIs(a % modulus, a);
      Serial(names(k), a % modulus, k, a);
      if k == a == pos {
        FirstName();
      } else if k == a {
        NextName(a);
      }
    }

    lemma FirstName()
      requires modulus > 0 && 0 <= begin <= modulus && begin % modulus == pos % modulus
      ensures begin == pos % modulus || (begin == modulus && pos % modulus == 0)
    {
      if begin < modulus { SeqNum.DivModUnique(modulus, 0, begin); } else { SeqNum.DivModUnique(modulus, 1, 0); }
    }

    lemma NextName(a: int)
      requires modulus > 1
      ensures Name(a - 1, a) == if !reduces && a % modulus == 0 then modulus else a % modulus
    {
      SeqNum.ModStep(modulus, a - 1, 1);
    }

    /** Where the hint points after packet `a` has been stored and `hint` was the hint before. */
    ghost function HintWith(hint: Option<nat>, a: int): Option<nat>
      requires modulus > 0 && pos <= a
      reads this`pos, this`begin
    {
      if hint.Some? && hint.value <= a - pos then hint else if Missed(a) then None else Some(a - pos)
    }

    /** Stores a packet in a free slot of the window and moves the hint. */
    method Store(seqNum: int, user: T, ghost a: int)
      requires Shape() && seqNum == a % modulus && pos <= a < pos + count
      modifies this`firstSetHint, ring
      ensures Shape() && Items() == old(Items())[a := user]
      ensures forall b :: pos <= b < pos + count && b != a ==> ring[Slot(b)] == old(ring[Slot(b)])
      ensures ring[Slot(a)].filled
      ensures firstSetHint == HintWith(old(firstSetHint), a)
    {
      ResidueIs(seqNum, a);
      ResidueSlot(seqNum, a);
      ring[seqNum % size] := Entry(true, Some(user));
      forall b | pos <= b < pos + count && b != a ensures ring[Slot(b)] == old(ring[Slot(b)]) {
        if Slot(b) == Slot(a) { SlotDistinct(a, b); }
      }
      LowerHint(seqNum, a);
    }

    /** Moves the hint to a packet just stored if that comes first. */
    method LowerHint(seqNum: int, ghost a: int)
      requires Shape() && seqNum == a % modulus && pos <= a < pos + count
      modifies this`firstSetHint
      ensures Shape() && Items() == old(Items())
      ensures firstSetHint == HintWith(old(firstSetHint), a)
    {
      if firstSetHint.None? {
        firstSetHint := OffsetForSeq(seqNum, a);
      } else {
        PlusIs(begin, pos, firstSetHint.value);
        ResidueIs(seqNum, a);
        Serial(seqNum, Plus(begin, firstSetHint.value), a, pos + firstSetHint.value);
        if Before(seqNum, Plus(begin, firstSetHint.value)) {
          firstSetHint := OffsetForSeq(seqNum, a);
        }
      }
    }

    /** A packet is turned away if it is behind the window, already held, or (dropping at the end)
        beyond what the ring can span. */
    ghost predicate Rejects(a: int)
      reads this
    {
      RejectsOf(items, a)
    }

    ghost predicate RejectsOf(held: map<int, T>, a: int)
      reads this
    {
      a < pos || a in held || (dropStrategy.DropEnd? && a >= pos + size)
    }

    /** Where the window starts once packet `a` has been let in. */
    ghost function HeadFor(a: int): int
      reads this
    {
      if a < pos + size then pos else if a + 1 - size >= pos + count then a else a + 1 - size
    }

    /** The assertion of a push does not hold: the number is that of the head or of the end of the window, but the
        queue has another name for it. */
    ghost predicate Stumbles(a: int)
      requires modulus > 0
      reads this
    {
      && !reduces && count > 0
      && ((a == pos && begin == modulus) || (a == pos + count && pos % modulus + count >= modulus))
    }

    /** What the queue calls its head once packet `a` has been let in and the head is `newPos`. */
    ghost function HeadName(a: int, newPos: int): int
      requires modulus > 0
      reads this
    {
      if newPos == pos then begin else if newPos == a then a % modulus else Name(newPos - 1, newPos)
    }

    /** The result is None if the assertion fails. */
    method Push(seqNum: int, user: T, ghost a: int) returns (r: Option<seq<Drop<T>>>)
      requires Valid() && seqNum == a % modulus && Near(a)
      modifies this`begin, this`count, this`firstSetHint, this`pos, this`items, ring
      ensures Valid()
      ensures r.None? <==> old(Stumbles(a))
      ensures old(Stumbles(a)) || old(Rejects(a)) ==>
                && items == old(items) && pos == old(pos) && begin == old(begin)
                && count == old(count) && firstSetHint == old(firstSetHint)
      ensures !old(Stumbles(a)) && old(Rejects(a)) ==> r == Some([Drop(seqNum, Some(user))])
      ensures !old(Stumbles(a)) && !old(Rejects(a)) ==>
                && pos == old(HeadFor(a)) && begin == old(HeadName(a, HeadFor(a)))
                && items == From(old(items), pos)[a := user]
                && r == Some(DropsBetween(old(items), old(pos), pos, old(HeadNames())))
                && count == Max(old(pos) + old(count), a + 1) - pos
                && firstSetHint == HintWith(old(firstSetHint), a)
      ensures old(Stumbles(a)) || (old(Rejects(a)) <==>
                a < old(pos) || a in old(items) || (dropStrategy == DropEnd && a - old(pos) >= size))
      ensures !old(Stumbles(a)) && !old(Rejects(a)) ==>
                LetIn(old(items), old(pos), old(count), size, a, user, items, pos, count, old(HeadNames()), r.value)
    {
      WindowIsItems();
      assert From(items, pos) == items;
      hide HintWith, HeadName, Stumbles, HeadNames, Window, LetIn;
      ghost var held, head, n, names := items, pos, count, HeadNames();
      r := PushRing(seqNum, user, a);
      Sync();
      if !old(Stumbles(a)) && !old(Rejects(a)) {
        LetInIs(held, head, n, size, a, user, items, pos, count, names, r.value);
      }
    }

    /** A push, stated on the ring. */
    method PushRing(seqNum: int, user: T, ghost a: int) returns (r: Option<seq<Drop<T>>>)
      requires Framed() && seqNum == a % modulus && Near(a) && From(Items(), pos) == Items()
      modifies this`begin, this`count, this`firstSetHint, this`pos, ring
      ensures Framed()
      ensures r.None? <==> old(Stumbles(a))
      ensures old(Stumbles(a)) || old(RejectsOf(Items(), a)) ==>
                && Items() == old(Items()) && pos == old(pos) && begin == old(begin)
                && count == old(count) && firstSetHint == old(firstSetHint)
      ensures !old(Stumbles(a)) && old(RejectsOf(Items(), a)) ==> r == Some([Drop(seqNum, Some(user))])
      ensures !old(Stumbles(a)) && !old(RejectsOf(Items(), a)) ==>
                && pos == old(HeadFor(a)) && begin == old(HeadName(a, HeadFor(a)))
                && Items() == From(old(Items()), pos)[a := user]
                && r == Some(DropsBetween(old(Items()), old(pos), pos, old(HeadNames())))
                && count == Max(old(pos) + old(count), a + 1) - pos
                && firstSetHint == HintWith(old(firstSetHint), a)
    {
      PlusIs(begin, pos, count);
      var end := Plus(begin, count);
      Compare(seqNum, end, a);
      if EqualOrAfter(seqNum, begin) && Before(seqNum, end) {
        var dropped := PushInside(seqNum, user, a);
        return Some(dropped);
      }
      if Before(seqNum, begin) {
        return Some([Drop(seqNum, Some(user))]);
      }
      if !EqualOrAfter(seqNum, end) { return None; }
      var dropped := PushBeyond(seqNum, user, end, a);
      return Some(dropped);
    }

    /** What the comparisons of a push with the head and the end of the window tell. */
    lemma Compare(seqNum: int, end: int, a: int)
      requires Shape() && seqNum == a % modulus && Near(a) && end == Plus(begin, count)
      ensures Before(seqNum, begin) <==> a < pos
      ensures EqualOrAfter(seqNum, begin) <==> a > pos || (a == pos && begin != modulus)
      ensures a >= pos ==> (Before(seqNum, end) <==> a < pos + count)
      ensures a >= pos ==> (EqualOrAfter(seqNum, end) <==> a >= pos + count && !(a == pos + count && Stumbles(a)))
    {
      ResidueIs(seqNum, a);
      Serial(seqNum, begin, a, pos);
      SeqNum.DivModUnique(modulus, 0, begin % modulus);
      if a >= pos {
        PlusIs(begin, pos, count);
        Serial(seqNum, end, a, pos + count);
        SeqNum.ModStep(modulus, pos, count);
      }
      if begin < modulus { SeqNum.DivModUnique(modulus, 0, begin); }
    }

    /** Brings `items` up to date with the ring. */
    ghost method Sync()
      requires Framed()
      modifies this`items
      ensures Valid() && items == Items()
    {
      items := Items();
      WindowIsItems();
    }

    /** The part of a push for a number in the window. */
    method PushInside(seqNum: int, user: T, ghost a: int) returns (dropped: seq<Drop<T>>)
      requires Framed() && pos <= a < pos + count && seqNum == a % modulus
      modifies this`firstSetHint, ring
      ensures Framed()
      ensures old(a in Items()) ==>
                && dropped == [Drop(seqNum, Some(user))]
                && Items() == old(Items()) && firstSetHint == old(firstSetHint)
      ensures old(a !in Items()) ==>
                && dropped == [] && Items() == old(Items())[a := user]
                && firstSetHint == HintWith(old(firstSetHint), a)
    {
      ResidueIs(seqNum, a);
      ResidueSlot(seqNum, a);
      if ring[seqNum % size].filled {
        return [Drop(seqNum, Some(user))];
      }
      Store(seqNum, user, a);
      assert pos + count - 1 == a || ring[Slot(pos + count - 1)] == old(ring[Slot(pos + count - 1)]);
      return [];
    }

    /** The part of a push for a number at or past the end of the window. */
    method PushBeyond(seqNum: int, user: T, end: int, ghost a: int) returns (dropped: seq<Drop<T>>)
      requires Framed() && Near(a) && a >= pos + count
      requires seqNum == a % modulus && end % modulus == (pos + count) % modulus
      modifies this`begin, this`count, this`firstSetHint, this`pos, ring
      ensures Framed()
      ensures old(dropStrategy.DropEnd? && a >= pos + size) ==>
                && dropped == [Drop(seqNum, Some(user))] && Items() == old(Items())
                && pos == old(pos) && begin == old(begin) && count == old(count) && firstSetHint == old(firstSetHint)
      ensures !old(dropStrategy.DropEnd? && a >= pos + size) ==>
                && pos == old(HeadFor(a)) && begin == old(HeadName(a, HeadFor(a)))
                && Items() == From(old(Items()), pos)[a := user]
                && dropped == DropsBetween(old(Items()), old(pos), pos, old(HeadNames()))
                && count == a + 1 - pos
                && firstSetHint == HintWith(old(firstSetHint), a)
    {
      dropped := [];
      var totalEnd, newEnd := TotalEnd(end, a), NewEnd(seqNum, a);
      Serial(totalEnd, newEnd, pos + size, a + 1);
      if Before(totalEnd, newEnd) {
        if dropStrategy == DropEnd {
          return [Drop(seqNum, Some(user))];
        }
        dropped := MakeRoom(seqNum, end, newEnd, a);
      }
      assert From(old(Items()), old(pos)) == old(Items());
      ExtendTo(newEnd, a);
      Store(seqNum, user, a);
    }

    /** The end the window has once packet `a` is its last one. */
    function NewEnd(seqNum: int, ghost a: int): (newEnd: int)
      requires size > 0 && modulus % size == 0 && modulus > 1 && seqNum == a % modulus
      ensures newEnd % modulus == (a + 1) % modulus
    {
      ResidueIs(seqNum, a);
      PlusIs(seqNum, a, 1);
      Plus(seqNum, 1)
    }

    /** The largest end the window can have with its present head. */
    function TotalEnd(end: int, ghost a: int): (totalEnd: int)
      requires Shape() && end % modulus == (pos + count) % modulus
      reads this, ring
      ensures totalEnd % modulus == (pos + size) % modulus
    {
      PlusIs(end, pos + count, size - count);
      Plus(end, size - count)
    }

    /** Moves the head of the window past its first number. */
    method AdvanceHead()
      requires Framed() && count > 0
      modifies this`begin, this`count, this`pos
      ensures Framed() && pos == old(pos) + 1 && count == old(count) - 1
      ensures begin == Name(old(pos), pos)
      ensures Items() == From(old(Items()), pos)
      ensures old(pos) in old(Items()) <==> ring[Slot(old(pos))].filled
    {
      PlusIs(begin, pos, 1);
      NextName(pos + 1);
      hide SeqNum.Sum, Name;
      begin, count, pos := Plus(begin, 1), count - 1, pos + 1;
    }

    /** Drops the first number of the window, adding a packet held there to the packets `before`
        dropped since the window held `all` and started at `lo`. */
    method DropHead(before: seq<Drop<T>>, ghost all: map<int, T>, ghost lo: int, ghost names: int -> int)
      returns (dropped: seq<Drop<T>>)
      requires Framed() && count > 0 && lo <= pos && begin == names(pos)
      requires Items() == From(all, pos) && before == DropsBetween(all, lo, pos, names)
      modifies this`begin, this`count, this`pos
      ensures Framed() && pos == old(pos) + 1 && count == old(count) - 1 && begin == Name(pos - 1, pos)
      ensures Items() == From(all, pos) && dropped == DropsBetween(all, lo, pos, names)
    {
      ResidueSlot(begin, pos);
      var entry := ring[begin % size];
      dropped := before + if entry.filled then [Drop(begin, entry.user)] else [];
      FromStep(all, lo, pos, names);
      AdvanceHead();
    }

    lemma AllFrom()
      requires Shape()
      ensures From(Items(), pos) == Items()
    {
    }

    /** Drops from the front until packet `a` fits or nothing is left. */
    method DropUntilFits(end: int, newEnd: int, ghost a: int) returns (dropped: seq<Drop<T>>)
      requires Framed() && pos + size <= a && a - pos < modulus / 2
      requires end % modulus == (pos + count) % modulus && newEnd % modulus == (a + 1) % modulus
      modifies this`begin, this`count, this`pos
      ensures Framed() && pos == Min(a + 1 - size, old(pos + count)) && pos + count == old(pos + count)
      ensures begin == old(HeadNames())(pos)
      ensures Items() == From(old(Items()), pos)
      ensures dropped == DropsBetween(old(Items()), old(pos), pos, old(HeadNames()))
    {
      ghost var items, last, names := Items(), pos + count, HeadNames();
      hide Plus, Items, Name, Slot;
      assert Items() == From(items, pos) by { AllFrom(); }
      dropped := [];
      var totalEnd := TotalEnd(end, a);
      Serial(totalEnd, newEnd, pos + size, a + 1);
      while count > 0 && Before(totalEnd, newEnd)
        invariant Framed() && old(pos) <= pos <= last && pos + count == last && pos + size <= a + 1
        invariant begin == names(pos)
        invariant Before(totalEnd, newEnd) <==> pos + size < a + 1
        invariant Items() == From(items, pos)
        invariant dropped == DropsBetween(items, old(pos), pos, names)
        decreases count
      {
        dropped := DropHead(dropped, items, old(pos), names);
        totalEnd := TotalEnd(end, a);
        Serial(totalEnd, newEnd, pos + size, a + 1);
      }
    }

    /** Drops from the front until packet `a` fits; an emptied window restarts at `a`. */
    method MakeRoom(seqNum: int, end: int, newEnd: int, ghost a: int) returns (dropped: seq<Drop<T>>)
      requires Framed() && Near(a) && a >= pos + size
      requires seqNum == a % modulus
      requires end % modulus == (pos + count) % modulus && newEnd % modulus == (a + 1) % modulus
      modifies this`begin, this`count, this`pos
      ensures Framed() && pos == old(HeadFor(a)) && count == Max(old(pos + count) - pos, 0)
      ensures begin == old(HeadName(a, HeadFor(a)))
      ensures Items() == From(old(Items()), pos)
      ensures dropped == DropsBetween(old(Items()), old(pos), pos, old(HeadNames()))
    {
      dropped := DropUntilFits(end, newEnd, a);
      if count == 0 {
        NoDropsBetween(old(Items()), old(pos), pos, a, old(HeadNames()));
        ResidueIs(seqNum, a);
        begin, pos := seqNum, a;
      }
    }

    /** Lengthens the window up to and including packet `a`, clearing stale flags on the way. */
    method ExtendTo(newEnd: int, ghost a: int)
      requires Shape() && pos + count <= a + 1 <= pos + size && newEnd % modulus == (a + 1) % modulus
      modifies this`count, ring
      ensures Shape() && count == a + 1 - pos && Items() == old(Items())
    {
      PlusIs(begin, pos, count);
      var end := Plus(begin, count);
      Serial(end, newEnd, pos + count, a + 1);
      while Before(end, newEnd)
        invariant Shape() && pos + count <= a + 1 && end == Plus(begin, count) && end % size == Slot(pos + count)
        invariant Before(end, newEnd) <==> pos + count < a + 1
        invariant Items() == old(Items())
        decreases a + 1 - pos - count
      {
        AddSlot(end);
        PlusIs(begin, pos, count);
        end := Plus(begin, count);
        Serial(end, newEnd, pos + count, a + 1);
      }
    }

    /** Lengthens the window by one number, not held yet. */
    method AddSlot(end: int)
      requires Shape() && count < size && end % size == Slot(pos + count)
      modifies this`count, ring
      ensures Shape() && count == old(count) + 1 && Items() == old(Items())
    {
      count := count + 1;
      ring[end % size] := ring[end % size].(filled := false);
      forall b | pos <= b < pos + count - 1 ensures ring[Slot(b)] == old(ring[Slot(b)]) {
        if Slot(b) == Slot(pos + count - 1) { SlotDistinct(b, pos + count - 1); }
      }
    }

    /** The hint after the head has moved by one. */
    static function HintAfterHead(hint: Option<nat>, count: nat): Option<nat> {
      if count == 0 || hint.None? || hint.value == 0 then None else Some(hint.value - 1)
    }

    method Pull() returns (r: Option<(int, T)>)
      requires Valid()
      modifies this`begin, this`count, this`firstSetHint, this`pos, this`items
      ensures Valid()
      ensures old(pos) in old(items) ==>
                && r == Some((old(begin), old(items)[old(pos)]))
                && pos == old(pos) + 1 && begin == Name(old(pos), pos) && count == old(count) - 1
                && items == From(old(items), pos)
                && firstSetHint == HintAfterHead(old(firstSetHint), count)
      ensures old(pos) !in old(items) ==>
                && r == None && pos == old(pos) && begin == old(begin) && count == old(count)
                && items == old(items) && firstSetHint == old(firstSetHint)
    {
      WindowIsItems();
      if count == 0 { return None; }
      ResidueSlot(begin, pos);
      var entry := ring[begin % size];
      if !entry.filled { return None; }
      r := Some((begin, entry.user.value));
      AdvanceHead();
      firstSetHint := HintAfterHead(firstSetHint, count);
      Sync();
    }

    /** Looks up an offset, writing the number and the packet found to the places the caller gives. */
    method Peek(index: nat, wantSeq: bool, wantUser: bool) returns (r: Peeked<T>)
      requires Valid()
      ensures r == if pos + index !in items then Missing
                   else if wantSeq && wantUser then Seen(Name(pos, pos + index), items[pos + index])
                   else Fault
    {
      WindowIsItems();
      if index >= count { return Missing; }
      PlusIs(begin, pos, index);
      var seqNum := Plus(begin, index);
      var entry := ring[seqNum % size];
      if !entry.filled { return Missing; }
      if !wantSeq || !wantUser { return Fault; }
      r := Seen(seqNum, entry.user.value);
    }

    /** Where the scan of FindFirstSet starts. */
    ghost function ScanStart(): nat
      reads this
    {
      if firstSetHint.Some? && firstSetHint.value < count then firstSetHint.value else 0
    }

    /** Finds a packet iff there is one; it is the first one of the window iff no packet
        lies before the point the hint makes the scan start at. */
    method FindFirstSet() returns (r: Found<T>)
      requires Valid()
      modifies this`firstSetHint
      ensures Valid()
      ensures r.Found? <==> count > 0
      ensures r.NotFound? ==> firstSetHint == old(firstSetHint)
      ensures r.Found? ==>
                && r.index < count && pos + r.index in items && r.seqNum == Name(pos, pos + r.index)
                && r.user == items[pos + r.index] && firstSetHint == Some(r.index)
                && (LeastOf(items, pos + r.index) <==> NoneBefore(items, pos + old(ScanStart())))
    {
      r := Locate();
      if r.Found? { SetHint(Some(r.index)); }
    }

    method SetHint(hint: Option<nat>)
      requires Valid() && (hint.Some? ==> hint.value < size)
      modifies this`firstSetHint
      ensures Valid() && firstSetHint == hint
    {
      WindowIsItems();
      firstSetHint := hint;
      assert Items() == old(Items());
      WindowIsItems();
    }

    /** The search behind FindFirstSet. */
    method Locate() returns (r: Found<T>)
      requires Valid()
      ensures r.Found? <==> count > 0
      ensures r.Found? ==>
                && r.index < count && pos + r.index in items && r.seqNum == Name(pos, pos + r.index)
                && r.user == items[pos + r.index]
                && (LeastOf(items, pos + r.index) <==> NoneBefore(items, pos + ScanStart()))
    {
      WindowIsItems();
      var start := if firstSetHint.Some? && firstSetHint.value < count then firstSetHint.value else 0;
      var i := ScanFrom(start);
      if i.None? { return NotFound; }
      PlusIs(begin, pos, i.value);
      var seqNum := Plus(begin, i.value);
      ScanIsLeast(items, pos + start, pos + i.value);
      return Found(i.value, seqNum, ring[seqNum % size].user.value);
    }

    /** The first packet of the window at offset `start` or later. */
    method ScanFrom(start: nat) returns (r: Option<nat>)
      requires Framed()
      ensures r.None? <==> start >= count
      ensures r.Some? ==>
                && start <= r.value < count && pos + r.value in Items()
                && forall k :: pos + start <= k < pos + r.value ==> k !in Items()
    {
      var i := start;
      while i < count
        invariant start <= i && (start < count ==> i <= count)
        invariant forall k :: pos + start <= k < pos + i ==> k !in Items()
      {
        PlusIs(begin, pos, i);
        if ring[Plus(begin, i) % size].filled {
          assert pos + i in Items();
          return Some(i);
        }
        i := i + 1;
      }
      assert count > 0 ==> pos + count - 1 in Items();
      return None;
    }

    method SkipGap() returns (dropped: seq<Drop<T>>)
      requires Valid()
      modifies this`begin, this`count, this`firstSetHint, this`pos, this`items, ring
      ensures Valid()
      ensures old(count) == 0 ==>
                && dropped == [] && pos == old(pos) && begin == old(begin) && count == 0
                && items == old(items) && firstSetHint == old(firstSetHint)
      ensures old(count) > 0 ==>
                && dropped == [Drop(old(begin),
                                    if old(pos) in old(items) then Some(old(items)[old(pos)]) else None)]
                && pos == old(pos) + 1 && begin == Name(old(pos), pos) && count == old(count) - 1
                && items == From(old(items), pos)
                && firstSetHint == HintAfterHead(old(firstSetHint), count)
    {
      WindowIsItems();
      if count == 0 { return []; }
      dropped := SkipHead();
      firstSetHint := HintAfterHead(firstSetHint, count);
      Sync();
    }

    /** Drops the first number of the window, handing even an empty slot to the callback, and clears it. */
    method SkipHead() returns (dropped: seq<Drop<T>>)
      requires Framed() && count > 0
      modifies this`begin, this`count, this`pos, ring
      ensures Framed() && pos == old(pos) + 1 && begin == Name(old(pos), pos) && count == old(count) - 1
      ensures Items() == From(old(Items()), pos)
      ensures dropped == [Drop(old(begin),
                               if old(pos) in old(Items()) then Some(old(Items())[old(pos)]) else None)]
    {
      ResidueSlot(begin, pos);
      var i := begin % size;
      var entry := ring[i];
      dropped := [Drop(begin, if entry.filled then entry.user else None)];
      AdvanceHead();
      if entry.filled { ClearSlot(i, pos - 1); }
    }

    /** Empties a slot. */
    method ClearSlot(i: int, ghost a: int)
      requires Shape() && i == Slot(a) && pos - 1 <= a < pos + count && (a < pos ==> count < size)
      modifies ring
      ensures Shape() && Items() == old(Items()) - {a}
      ensures !ring[Slot(a)].filled
      ensures forall b :: pos <= b < pos + count && b != a ==> ring[Slot(b)] == old(ring[Slot(b)])
    {
      ring[i] := Entry(false, None);
      forall b | pos <= b < pos + count && b != a ensures ring[Slot(b)] == old(ring[Slot(b)]) {
        if Slot(b) == Slot(a) { SlotDistinct(a, b); }
      }
    }

    method DropAt(index: nat) returns (dropped: seq<Drop<T>>)
      requires Valid()
      modifies this`count, this`items, this`firstSetHint, ring
      ensures Valid() && count <= old(count)
      ensures pos + index !in old(items) ==>
                dropped == [] && items == old(items) && count == old(count) && firstSetHint == old(firstSetHint)
      ensures pos + index in old(items) ==>
                && dropped == [Drop(Name(pos, pos + index), Some(old(items)[pos + index]))]
                && items == old(items) - {pos + index}
      ensures old(HintExact()) ==> HintExact()
    {
      hide Window, Slot, HintExactFor, Name;
      WindowIsItems();
      var p := Peek(index, true, true);
      if p.Missing? { return []; }
      dropped := [Drop(p.seqNum, Some(p.user))];
      RemoveAt(index);
      Sync();
    }

    /** Empties the slot of a held packet, then shortens the window and repairs the hint as needed. */
    method RemoveAt(index: nat)
      requires Framed() && pos + index in Items()
      modifies this`count, this`firstSetHint, ring
      ensures Framed() && count <= old(count)
      ensures Items() == old(Items()) - {pos + index}
      ensures old(HintExactFor(Items())) ==> HintExactFor(Items())
    {
      hide Window, Slot;
      ghost var exact, hint := HintExactFor(Items()), firstSetHint;
      PlusIs(begin, pos, index);
      ClearSlot(Plus(begin, index) % size, pos + index);
      if index == count - 1 { Trim(); }
      RepairHint(index);
      if exact && count > 0 {
        assert pos + count - 1 in Items();
        assert pos + hint.value <= pos + count - 1;
      }
    }

    /** Shortens the window until it ends in a packet again. */
    method Trim()
      requires Shape() && count > 0
      modifies this`count
      ensures Framed() && count <= old(count) && Items() == old(Items())
    {
      PlusIs(begin, pos, count - 1);
      var i := Plus(begin, count - 1) % size;
      while !ring[i].filled
        invariant Shape() && 0 < count <= old(count) && i == Slot(pos + count - 1)
        invariant Items() == old(Items())
        decreases count
      {
        count := count - 1;
        if count == 0 { break; }
        PlusIs(begin, pos, count - 1);
        i := Plus(begin, count - 1) % size;
      }
    }

    /** Moves a hint that pointed at a packet just dropped to the next packet, if any. */
    method RepairHint(index: nat)
      requires Framed()
      modifies this`firstSetHint
      ensures Framed() && Items() == old(Items())
      ensures count == 0 ==> firstSetHint == None
      ensures count > 0 && old(firstSetHint) != Some(index) ==> firstSetHint == old(firstSetHint)
      ensures count > 0 && old(firstSetHint) == Some(index) && index < count ==>
                && firstSetHint.Some? && index <= firstSetHint.value && pos + firstSetHint.value in Items()
                && forall k :: pos + index <= k < pos + firstSetHint.value ==> k !in Items()
    {
      if count == 0 {
        firstSetHint := None;
      } else if firstSetHint == Some(index) {
        firstSetHint := ScanFrom(index);
      }
    }

    /** What the queue calls the numbers it computes from the head. */
    ghost function NamesFromHead(): int -> int
      requires modulus > 0
      reads this
    {
      var first := pos;
      a => Name(first, a)
    }

    /** Hands every packet still held to the drop callback, in order. */
    method Fini() returns (dropped: seq<Drop<T>>)
      requires Valid()
      ensures dropped == DropsBetween(items, pos, pos + count, NamesFromHead())
      ensures DropsAll(items, pos, pos + count, NamesFromHead(), dropped)
    {
      DropsAreAll(items, pos, pos + count, NamesFromHead());
      hide DropsAll;
      WindowIsItems();
      dropped := [];
      var i := 0;
      while i < count
        invariant i <= count && dropped == DropsBetween(items, pos, pos + i, NamesFromHead())
      {
        PlusIs(begin, pos, i);
        var seqNum := Plus(begin, i);
        var entry := ring[seqNum % size];
        if entry.filled {
          dropped := dropped + [Drop(seqNum, entry.user)];
        }
        i := i + 1;
      }
    }

    /** A queue that has not reached the modulus yet, and is not asked to, behaves as if sums were reduced. */
    lemma BelowModulus(a: int)
      requires Shape() && 0 <= pos == begin && pos + count < modulus && pos <= a < modulus
      ensures !Stumbles(a) && !Missed(a) && Name(pos, a) == a
    {
      SeqNum.DivModUnique(modulus, 0, pos);
      SeqNum.DivModUnique(modulus, 0, a);
    }
  }

  /** Why the hint needs a discipline: after pushing 0 and 1, pulling 0 and pushing 2, the search finds 2
      although 1 is held. */
  method StaleHint(modulus: nat, reduces: bool) returns (r: Found<int>, head: Peeked<int>)
    requires (modulus == SeqNum.MOD16 && !reduces) || (modulus == SeqNum.MOD32 && reduces)
    ensures r == Found(1, 2, 102) && head == Seen(1, 101)
  {
    hide ReorderQueue.Valid, DropsBetween, ReorderQueue.HeadNames;
    var q := new ReorderQueue<int>(modulus, reduces, 16, 0);
    PushTwoPullOne(q);
    var d := q.Push(2, 102, 2);
    head := q.Peek(0, true, true);
    r := q.FindFirstSet();
  }

  method PushTwoPullOne(q: ReorderQueue<int>)
    requires q.Valid() && q.items == map[] && q.count == 0 && q.firstSetHint == None && q.pos == q.begin == 0
    requires q.modulus > 65535 && q.size > 1
    modifies q, q.ring
    ensures q.Valid() && q.items == map[1 := 101] && q.count == 1 && q.firstSetHint == None && q.pos == q.begin == 1
    ensures q.dropStrategy == old(q.dropStrategy)
  {
    var d := q.Push(0, 100, 0);
    d := q.Push(1, 101, 1);
    var p := q.Pull();
  }

  /** A 16 bit queue that starts at 65535: when 65535 has arrived, the next packet, numbered 0, fails the assertion. */
  method NextStumbles() returns (r: Option<seq<Drop<int>>>)
    ensures r == None
  {
    var q := new ReorderQueue<int>(SeqNum.MOD16, false, 16, 65535);
    r := q.Push(65535, 100, 65535);
    r := q.Push(0, 101, 65536);
  }

  /** ... and when 65535 has been pulled and 1 arrives before 0, then 0 fails it, as the head goes by the name 65536. */
  method HeadStumbles() returns (head: int, r: Option<seq<Drop<int>>>)
    ensures head == 65536 && r == None
  {
    var q := new ReorderQueue<int>(SeqNum.MOD16, false, 16, 65535);
    r := q.Push(65535, 100, 65535);
    var p := q.Pull();
    head := q.begin;
    r := q.Push(1, 102, 65537);
    r := q.Push(0, 101, 65536);
  }

  /** A 16 bit queue that starts at 65534: a packet numbered 0 is let in, but the scan for its offset misses it. */
  method ScanMisses() returns (r: Option<seq<Drop<int>>>, hint: Option<nat>, head: Peeked<int>)
    ensures r == Some([]) && hint == None && head == Seen(65536, 100)
  {
    var q := new ReorderQueue<int>(SeqNum.MOD16, false, 16, 65534);
    r := q.Push(0, 100, 65536);
    hint := q.firstSetHint;
    head := q.Peek(2, true, true);
  }
}
