/** The base64 encoding of section 4 of RFC 4648, into and out of buffers of limited size. Characters are their
    ASCII codes. */
module Base64 {
  import opened Basics
  import opened Bytes
  import SeqNum

  const NEWLINE: byte := 10
  const PLUS: byte := 43
  const SLASH: byte := 47
  const EQUALS: byte := 61

  type sextet = x: int | 0 <= x < 64

  /** The character of six bits. */
  function Char(v: sextet): byte {
    if v < 26 then v + 65 else if v < 52 then v - 26 + 97 else if v < 62 then v - 52 + 48
    else if v == 62 then PLUS else SLASH
  }

  datatype Class = Digit(value: sextet) | Whitespace | Padding | Invalid

  function ClassOf(c: byte): Class {
    if c == NEWLINE then Whitespace
    else if c == EQUALS then Padding
    else if c == PLUS then Digit(62)
    else if c == SLASH then Digit(63)
    else if 48 <= c <= 57 then Digit(c - 48 + 52)
    else if 65 <= c <= 90 then Digit(c - 65)
    else if 97 <= c <= 122 then Digit(c - 97 + 26)
    else Invalid
  }

  /** The characters in the order of their values. */
  const ALPHABET: string := "ABCDEFGHIJKLMNOPQRSTUVWXYZ" + "abcdefghijklmnopqrstuvwxyz" + "0123456789+/"

  function Letter(v: int): int
    requires 0 <= v < 64
  {
    ALPHABET[v] as int
  }

  lemma CharIs(v: sextet)
    ensures Char(v) == Letter(v)
  {
    if v < 26 {
      UpperIs(v);
    } else if v < 52 {
      LowerIs(v - 26);
    } else {
      OthersAre(v - 52);
    }
  }

  lemma UpperIs(i: nat)
    requires i < 26
    ensures "ABCDEFGHIJKLMNOPQRSTUVWXYZ"[i] as int == 65 + i
  {
  }

  lemma LowerIs(i: nat)
    requires i < 26
    ensures "abcdefghijklmnopqrstuvwxyz"[i] as int == 97 + i
  {
  }

  lemma OthersAre(i: nat)
    requires i < 12
    ensures "0123456789+/"[i] as int == if i < 10 then 48 + i else if i == 10 then 43 else 47
  {
  }

  /** The class of a character by the alphabet; besides it there are newlines, padding and what is not allowed. */
  lemma ClassIs(c: byte)
    ensures forall v: sextet :: ClassOf(c) == Digit(v) <==> Letter(v) == c
    ensures (ClassOf(c) == Whitespace <==> c == 10) && (ClassOf(c) == Padding <==> c == 61)
  {
    hide Letter;
    forall v: sextet ensures ClassOf(c) == Digit(v) <==> Letter(v) == c {
      CharIs(v);
    }
  }

  // ---------------------------------------------------------------- encoding

  /** The 24 bits of up to three bytes, the first one highest. */
  function Bits(s: seq<byte>): nat
    requires |s| <= 3
  {
    (if |s| > 0 then (s[0] as int) * 0x1_0000 else 0)
    + (if |s| > 1 then (s[1] as int) * 0x100 else 0)
    + (if |s| > 2 then s[2] as int else 0)
  }

  /** One more six bit group than there are bytes. */
  function GroupSextets(s: seq<byte>): (r: seq<sextet>)
    requires 0 < |s| <= 3
    ensures |r| == |s| + 1
  {
    var n := Bits(s);
    [n / 0x4_0000 % 64, n / 0x1000 % 64] + (if |s| > 1 then [n / 64 % 64] else []) + (if |s| > 2 then [n % 64] else [])
  }

  /** The six bit groups of some bytes; the bits of the last one or two bytes are filled up with zeros. */
  function Sextets(s: seq<byte>): seq<sextet> {
    if s == [] then []
    else var k := LastGroup(|s|); Sextets(s[..k]) + GroupSextets(s[k..])
  }

  /** Where the last group of up to three begins. */
  function LastGroup(n: nat): (k: nat)
    requires n > 0
    ensures k % 3 == 0 && k < n <= k + 3
  {
    (n - 1) / 3 * 3
  }

  function Chars(d: seq<sextet>): (r: seq<byte>)
    ensures |r| == |d| && forall i :: 0 <= i < |d| ==> r[i] == Char(d[i])
  {
    seq<byte>(|d|, i requires 0 <= i < |d| => Char(d[i]))
  }

  function PaddingOf(n: nat): seq<byte> {
    if n % 3 == 0 then [] else if n % 3 == 1 then [EQUALS, EQUALS] else [EQUALS]
  }

  function Encoding(s: seq<byte>): seq<byte> {
    Chars(Sextets(s)) + PaddingOf(|s|)
  }

  /** Four characters for every three bytes, rounded up. */
  function EncodedSize(n: nat): nat {
    (n + 2) / 3 * 4
  }

  /** Four groups of six bits for every three bytes, and one more than there are for the last ones. */
  function SextetsCount(n: nat): nat {
    n + (n + 2) / 3
  }

  lemma {:induction false} SextetsSize(s: seq<byte>)
    ensures |Sextets(s)| == SextetsCount(|s|)
  {
    if s != [] {
      var k := LastGroup(|s|);
      SextetsSize(s[..k]);
      assert |s[..k]| == k;
      assert (k + 2) / 3 == (|s| + 2) / 3 - 1;
    }
  }

  lemma EncodingSize(s: seq<byte>)
    ensures |Encoding(s)| == EncodedSize(|s|)
  {
    SextetsSize(s);
    var j, r := |s| / 3, |s| % 3;
    assert |s| == 3 * j + r;
    assert (|s| + 2) / 3 == j + if r == 0 then 0 else 1;
  }

  /** The end of the group that begins at `x`. */
  function GroupEnd(x: nat, n: nat): nat {
    Min(x + 3, n)
  }

  lemma PrefixSize(s: seq<byte>, x: nat)
    requires x <= |s|
    ensures |Sextets(s[..x])| <= |Sextets(s)|
  {
    SextetsSize(s[..x]);
    SextetsSize(s);
  }

  lemma SextetsStep(s: seq<byte>, x: nat)
    requires x % 3 == 0 && x < |s|
    ensures Sextets(s[..GroupEnd(x, |s|)]) == Sextets(s[..x]) + GroupSextets(s[x..GroupEnd(x, |s|)])
  {
    var t := s[..GroupEnd(x, |s|)];
    assert LastGroup(|t|) == x;
    assert t[..x] == s[..x] && t[x..] == s[x..GroupEnd(x, |s|)];
  }

  /** A byte of the string, or zero behind its end. */
  function At(s: seq<byte>, i: nat): byte {
    if i < |s| then s[i] else 0
  }

  /** Four characters of the text for each three bytes; padding stands for what is missing at the end. */
  ghost predicate EncodesAs(s: seq<byte>, text: seq<byte>) {
    && |text| == (|s| + 2) / 3 * 4
    && forall j: nat :: 3 * j < |s| ==> GroupEncodes(s, text, j)
  }

  ghost predicate GroupEncodes(s: seq<byte>, text: seq<byte>, j: nat) {
    var (a, b, c) := (At(s, 3 * j) as int, At(s, 3 * j + 1) as int, At(s, 3 * j + 2) as int);
    && 4 * j + 3 < |text|
    && text[4 * j] == Letter(a / 4)
    && text[4 * j + 1] == Letter(a % 4 * 16 + b / 16)
    && text[4 * j + 2] == (if 3 * j + 1 < |s| then Letter(b % 16 * 4 + c / 64) else 61)
    && text[4 * j + 3] == (if 3 * j + 2 < |s| then Letter(c % 64) else 61)
  }

  lemma EncodingIs(s: seq<byte>)
    ensures EncodesAs(s, Encoding(s))
  {
    hide Encoding, EncodedSize, GroupEncodes;
    EncodingSize(s);
    EncodedSizeIs(|s|);
    forall j: nat | 3 * j < |s| ensures GroupEncodes(s, Encoding(s), j) {
      GroupEncoded(s, j);
    }
  }

  lemma EncodedSizeIs(n: nat)
    ensures EncodedSize(n) == (n + 2) / 3 * 4
  {
  }

  lemma GroupEncoded(s: seq<byte>, j: nat)
    requires 3 * j < |s|
    ensures GroupEncodes(s, Encoding(s), j)
  {
    hide Sextets, Letter, Char, GroupSextets, EncodedSize, Encoding, PaddingOf, SextetsCount;
    GroupAt(s, j);
    GroupCut(s[3 * j..GroupEnd(3 * j, |s|)]);
    forall v: sextet ensures Char(v) == Letter(v) { CharIs(v); }
  }

  /** The characters that encode the bytes from `3 * j` on. */
  lemma GroupAt(s: seq<byte>, j: nat)
    requires 3 * j < |s|
    ensures var g, text := GroupSextets(s[3 * j..GroupEnd(3 * j, |s|)]), Encoding(s);
            && 4 * j + 3 < |text|
            && (forall i :: 0 <= i < |g| ==> text[4 * j + i] == Char(g[i]))
            && (|g| < 3 ==> text[4 * j + 2] == EQUALS) && (|g| < 4 ==> text[4 * j + 3] == EQUALS)
  {
    hide Sextets, Char, GroupSextets, EncodedSize, SextetsCount;
    SextetsSize(s);
    SextetsAt(s, j);
    EncodingSize(s);
    LastAt(|s|, j);
    var g, d := GroupSextets(s[3 * j..GroupEnd(3 * j, |s|)]), Sextets(s);
    forall i | 0 <= i < |g| ensures d[4 * j + i] == g[i] {
      assert d[4 * j..4 * j + |g|][i] == g[i];
    }
  }

  /** The last group is the one that is not whole. */
  lemma LastAt(n: nat, j: nat)
    requires 3 * j < n
    ensures 4 * j + 3 < EncodedSize(n)
    ensures 3 * j + 3 <= n ==> 4 * j + 4 <= SextetsCount(n)
    ensures 3 * j + 3 > n ==> SextetsCount(n) == 4 * j + (n - 3 * j) + 1 && EncodedSize(n) == 4 * j + 4
    ensures 3 * j + 3 > n ==> n % 3 == n - 3 * j
  {
    assert (n + 2) / 3 >= j + 1;
    if 3 * j + 3 > n { assert n == 3 * j + (n - 3 * j) && (n + 2) / 3 == j + 1; }
  }

  /** Where the six bit groups of the bytes from `3 * j` on are. */
  lemma {:induction false} SextetsAt(s: seq<byte>, j: nat)
    requires 3 * j < |s|
    ensures var g := GroupSextets(s[3 * j..GroupEnd(3 * j, |s|)]);
            4 * j + |g| <= |Sextets(s)| && Sextets(s)[4 * j..4 * j + |g|] == g
  {
    hide GroupSextets, Sextets, LastGroup;
    var k := LastGroup(|s|);
    SextetsSize(s[..k]);
    LastSextets(s);
    if 3 * j < k {
      SextetsAt(s[..k], j);
      WholeFits(k, j);
      Within(s[..k], s[k..], 3 * j, 3 * j + 3);
      assert s[..k] + s[k..] == s;
      Within(Sextets(s[..k]), GroupSextets(s[k..]), 4 * j, 4 * j + |GroupSextets(s[3 * j..3 * j + 3])|);
    } else {
      AtLast(|s|, k, j);
      assert s[3 * j..|s|] == s[k..];
      Behind(Sextets(s[..k]), GroupSextets(s[k..]));
    }
  }

  lemma AtLast(n: nat, k: nat, j: nat)
    requires k % 3 == 0 && k <= 3 * j < n <= k + 3
    ensures k == 3 * j && GroupEnd(3 * j, n) == n && SextetsCount(k) == 4 * j
  {
  }

  lemma LastSextets(s: seq<byte>)
    requires s != []
    ensures var k := LastGroup(|s|); Sextets(s) == Sextets(s[..k]) + GroupSextets(s[k..])
  {
  }

  lemma Within<T>(a: seq<T>, b: seq<T>, lo: nat, hi: nat)
    requires lo <= hi <= |a|
    ensures (a + b)[lo..hi] == a[lo..hi]
  {
  }

  lemma Behind<T>(a: seq<T>, b: seq<T>)
    ensures (a + b)[|a|..|a| + |b|] == b
  {
  }

  lemma WholeFits(k: nat, j: nat)
    requires k % 3 == 0 && 3 * j < k
    ensures 3 * j + 3 <= k
  {
  }

  method Encode(data: array<byte>, out: array<byte>) returns (ok: bool)
    requires data != out
    modifies out
    ensures ok <==> out.Length >= EncodedSize(data.Length) + 1
    ensures ok ==> out[..EncodedSize(data.Length)] == Encoding(data[..]) && out[EncodedSize(data.Length)] == 0
    ensures ok ==> EncodesAs(data[..], out[..EncodedSize(data.Length)])
  {
    hide EncodesAs;
    EncodingIs(data[..]);
    var at;
    EncodingSize(data[..]);
    ok, at := EncodeGroups(data, out);
    if !ok {
      return;
    }
    ok, at := Pad(data.Length % 3, out, at);
    if !ok {
      return;
    }
    if at >= out.Length {
      return false;
    }
    out[at] := 0;
    assert out[..at] == Encoding(data[..]);
    return true;
  }

  /** Writes the characters of all bytes, three at a time. */
  method EncodeGroups(data: array<byte>, out: array<byte>) returns (ok: bool, at: nat)
    requires data != out
    modifies out
    ensures ok <==> |Sextets(data[..])| <= out.Length
    ensures ok ==> at == |Sextets(data[..])| && out[..at] == Chars(Sextets(data[..]))
  {
    var x: nat := 0;
    at := 0;
    while x < data.Length
      invariant x % 3 == 0 && Encoded(data[..], out, x, at)
    {
      ok, at := EncodeNext(data, x, out, at);
      if !ok {
        return;
      }
      x := x + 3;
    }
    assert data[..][..Min(x, data.Length)] == data[..];
    ok := true;
  }

  /** The bytes before `x` have been encoded, into `at` characters. */
  ghost predicate Encoded(s: seq<byte>, out: array<byte>, x: nat, at: nat)
    reads out
  {
    var done := Sextets(s[..Min(x, |s|)]);
    at == |done| <= out.Length && out[..at] == Chars(done)
  }

  method EncodeNext(data: array<byte>, x: nat, out: array<byte>, at: nat) returns (ok: bool, at': nat)
    requires data != out && x < data.Length && x % 3 == 0 && Encoded(data[..], out, x, at)
    modifies out
    ensures !ok ==> |Sextets(data[..])| > out.Length
    ensures ok ==> Encoded(data[..], out, x + 3, at')
  {
    hide Sextets, GroupSextets, Char;
    ghost var end := GroupEnd(x, data.Length);
    SextetsStep(data[..], x);
    PrefixSize(data[..], end);
    assert data[..][x..end] == data[x..end];
    ok, at' := EncodeGroup(data, x, out, at);
  }

  /** Writes the characters of up to three bytes. */
  method EncodeGroup(data: array<byte>, x: nat, out: array<byte>, at: nat) returns (ok: bool, at': nat)
    requires data != out && x < data.Length && at <= out.Length
    modifies out
    ensures var group := GroupSextets(data[x..GroupEnd(x, data.Length)]);
            && (ok <==> at + |group| <= out.Length)
            && (ok ==> at' == at + |group| && out[..at'] == old(out[..at]) + Chars(group))
  {
    at' := at;
    var n: nat := (data[x] as int) * 0x1_0000;
    if x + 1 < data.Length {
      n := n + (data[x + 1] as int) * 0x100;
    }
    if x + 2 < data.Length {
      n := n + data[x + 2];
    }
    ghost var s := data[x..GroupEnd(x, data.Length)];
    assert n == Bits(s);
    ghost var group := GroupSextets(s);
    if at' >= out.Length { return false, at'; }
    out[at'] := Char(n / 0x4_0000 % 64);
    at' := at' + 1;
    if at' >= out.Length { return false, at'; }
    out[at'] := Char(n / 0x1000 % 64);
    at' := at' + 1;
    if x + 1 < data.Length {
      if at' >= out.Length { return false, at'; }
      out[at'] := Char(n / 64 % 64);
      at' := at' + 1;
    }
    if x + 2 < data.Length {
      if at' >= out.Length { return false, at'; }
      out[at'] := Char(n % 64);
      at' := at' + 1;
    }
    assert out[..at'] == old(out[..at]) + Chars(group);
    return true, at';
  }

  /** Fills up the last four characters. */
  method Pad(count: nat, out: array<byte>, at: nat) returns (ok: bool, at': nat)
    requires at <= out.Length && count < 3
    modifies out
    ensures ok <==> at + |PaddingOf(count)| <= out.Length
    ensures ok ==> at' == at + |PaddingOf(count)| && out[..at'] == old(out[..at]) + PaddingOf(count)
  {
    at' := at;
    if count > 0 {
      var padCount := count;
      while padCount < 3
        invariant count <= padCount <= 3 && at' == at + padCount - count <= out.Length
        invariant out[..at'] == old(out[..at]) + seq<byte>(padCount - count, i => EQUALS)
      {
        if at' >= out.Length {
          return false, at';
        }
        out[at'] := EQUALS;
        at', padCount := at' + 1, padCount + 1;
      }
    }
    return true, at';
  }

  // ---------------------------------------------------------------- decoding

  /** The digits of a text, up to padding or a character that is not allowed; newlines are passed over. */
  function Digits(text: seq<byte>): seq<sextet> {
    if text == [] then []
    else match ClassOf(text[0])
      case Digit(v) => [v] + Digits(text[1..])
      case Whitespace => Digits(text[1..])
      case Padding => []
      case Invalid => []
  }

  /** A character that is not allowed ends the text. */
  predicate Broken(text: seq<byte>) {
    text != [] && match ClassOf(text[0])
      case Digit(_) => Broken(text[1..])
      case Whitespace => Broken(text[1..])
      case Padding => false
      case Invalid => true
  }

  /** The number that some digits make up. */
  function Number(d: seq<sextet>): nat {
    if d == [] then 0 else Number(d[..|d| - 1]) * 64 + d[|d| - 1]
  }

  function ByteOf(n: nat): byte {
    n % 0x100
  }

  /** Three bytes for four digits. */
  function WholeBytes(d: seq<sextet>): seq<byte>
    requires |d| % 4 == 0
  {
    if d == [] then []
    else
      var n := Number(d[|d| - 4..]);
      WholeBytes(d[..|d| - 4]) + [ByteOf(n / 0x1_0000), ByteOf(n / 0x100), ByteOf(n)]
  }

  /** Two bytes for the last three digits, or one for two. A digit alone says nothing. */
  function LastBytes(d: seq<sextet>): seq<byte>
    requires |d| < 4
  {
    var n := Number(d);
    if |d| == 3 then [ByteOf(n / 1024), ByteOf(n / 4)] else if |d| == 2 then [ByteOf(n / 16)] else []
  }

  /** How many of some digits make up whole groups. */
  function Whole(n: nat): (k: nat)
    ensures k % 4 == 0 && k <= n < k + 4
  {
    n / 4 * 4
  }

  function Decoding(d: seq<sextet>): seq<byte> {
    var k := Whole(|d|);
    WholeBytes(d[..k]) + LastBytes(d[k..])
  }

  datatype Status = Ok | InvalidData | BufTooSmall

  /** How decoding into a buffer of some size ends: whichever comes first, a whole group for which there is no room, a
      character that is not allowed, or the end. */
  function DecodeStatus(text: seq<byte>, size: nat): Status {
    var d := Digits(text);
    if |d| / 4 * 3 > size then BufTooSmall
    else if Broken(text) then InvalidData
    else if |Decoding(d)| > size then BufTooSmall
    else Ok
  }

  /** The digits of the text from `from` on are `d`, found at these places; only newlines lie in between. They end at
      `stop`, the end of the text or a character that is neither. */
  ghost predicate Reads(text: seq<byte>, from: nat, d: seq<sextet>, at: seq<nat>, stop: nat) {
    && from <= stop <= |text| && |at| == |d|
    && (forall i :: 0 <= i < |at| ==> from <= at[i] < stop && text[at[i]] == Letter(d[i]))
    && (forall i, j :: 0 <= i < j < |at| ==> at[i] < at[j])
    && (forall p: nat :: from <= p < stop ==> text[p] == 10 || p in at)
    && (stop < |text| ==> text[stop] != 10 && forall v: sextet :: Letter(v) != text[stop])
  }

  lemma {:induction false} DigitsRead(text: seq<byte>, from: nat) returns (at: seq<nat>, stop: nat)
    requires from <= |text|
    ensures Reads(text, from, Digits(text[from..]), at, stop)
    ensures Broken(text[from..]) <==> stop < |text| && text[stop] != 61
    decreases |text| - from
  {
    hide ClassOf, Letter;
    at, stop := [], from;
    if from < |text| {
      var c := ClassOf(text[from]);
      ClassIs(text[from]);
      assert text[from..][1..] == text[from + 1..];
      if c.Digit? {
        at, stop := DigitsRead(text, from + 1);
        ReadsDigit(text, from, c.value, Digits(text[from + 1..]), at, stop);
        at := [from] + at;
      } else if c.Whitespace? {
        at, stop := DigitsRead(text, from + 1);
      }
    }
  }

  lemma ReadsDigit(text: seq<byte>, from: nat, v: sextet, d: seq<sextet>, at: seq<nat>, stop: nat)
    requires from < |text| && text[from] == Letter(v) && Reads(text, from + 1, d, at, stop)
    ensures Reads(text, from, [v] + d, [from] + at, stop)
  {
    hide Letter;
    assert ([from] + at)[0] == from;
    forall p: nat | from <= p < stop ensures text[p] == 10 || p in [from] + at {
      assert p > from ==> text[p] == 10 || p in at;
    }
  }

  /** The bits of the digits, as many bytes as they fill. */
  ghost predicate Packs(d: seq<sextet>, bytes: seq<byte>) {
    && |bytes| == 6 * |d| / 8
    && (forall j: nat :: 3 * j < |bytes| ==> bytes[3 * j] == d[4 * j] as int * 4 + d[4 * j + 1] / 16)
    && (forall j: nat :: 3 * j + 1 < |bytes| ==>
          bytes[3 * j + 1] == d[4 * j + 1] as int % 16 * 16 + d[4 * j + 2] / 4)
    && (forall j: nat :: 3 * j + 2 < |bytes| ==>
          bytes[3 * j + 2] == d[4 * j + 2] as int % 4 * 64 + d[4 * j + 3])
  }

  /** How it ends: whichever comes first, a whole group of digits for which there is no room, a character at `stop`
      that is not padding, or no room for the last bytes. */
  ghost predicate Outcome(text: seq<byte>, d: seq<sextet>, stop: nat, size: nat, status: Status) {
    if |d| / 4 * 3 > size then status == BufTooSmall
    else if stop < |text| && text[stop] != 61 then status == InvalidData
    else if 6 * |d| / 8 > size then status == BufTooSmall
    else status == Ok
  }

  /** The text has some digits, which end it that way, and if all is well make up these bytes. */
  ghost predicate Decodes(text: seq<byte>, size: nat, status: Status, bytes: seq<byte>) {
    exists d, at, stop ::
      Reads(text, 0, d, at, stop) && Outcome(text, d, stop, size, status) && (status == Ok ==> Packs(d, bytes))
  }

  lemma DecodesIs(text: seq<byte>, size: nat)
    ensures DecodeStatus(text, size) == Ok ==> Decodes(text, size, Ok, Decoding(Digits(text)))
    ensures DecodeStatus(text, size) != Ok ==> Decodes(text, size, DecodeStatus(text, size), [])
  {
    var at, stop := DigitsRead(text, 0);
    OutcomeIs(text, stop, size);
    DecodingPacks(Digits(text));
    hide Reads, Outcome, Packs, DecodeStatus, Digits;
  }

  lemma OutcomeIs(text: seq<byte>, stop: nat, size: nat)
    requires Broken(text) <==> stop < |text| && text[stop] != 61
    ensures Outcome(text, Digits(text), stop, size, DecodeStatus(text, size))
    ensures text[0..] == text
  {
    hide Digits, Broken, Decoding;
    DecodingPacks(Digits(text));
  }

  /** The digits before `at` are those taken in. */
  ghost predicate Decoded(text: seq<byte>, at: nat, done: seq<sextet>)
    requires at <= |text|
  {
    Digits(text) == done + Digits(text[at..]) && (Broken(text) <==> Broken(text[at..]))
  }

  /** All whole groups of digits have been written, the digits of the last one are being collected. */
  ghost predicate Collected(out: array<byte>, done: seq<sextet>, buf: nat, iter: nat, len: nat)
    reads out
  {
    var k := |done| - iter;
    && iter < 4 && k % 4 == 0 && 0 <= k && buf == Number(done[k..])
    && len <= out.Length && out[..len] == WholeBytes(done[..k])
  }

  lemma {:induction false} WholeSize(d: seq<sextet>)
    requires |d| % 4 == 0
    ensures |WholeBytes(d)| == |d| / 4 * 3 < (|d| + 4) / 4 * 3 == |WholeBytes(d)| + 3
  {
    if d != [] { WholeSize(d[..|d| - 4]); }
  }

  lemma WholeStep(done: seq<sextet>, v: sextet)
    requires |done| % 4 == 3
    ensures var d, k := done + [v], |done| - 3;
            var n := Number(d[k..]);
            WholeBytes(d) == WholeBytes(done[..k]) + [ByteOf(n / 0x1_0000), ByteOf(n / 0x100), ByteOf(n)]
  {
    var d := done + [v];
    assert d[..|d| - 4] == done[..|done| - 3];
  }

  /** What one character changes. */
  lemma Advance(text: seq<byte>, at: nat, done: seq<sextet>)
    requires at < |text| && Decoded(text, at, done)
    ensures match ClassOf(text[at])
            case Digit(v) => Decoded(text, at + 1, done + [v])
            case Whitespace => Decoded(text, at + 1, done)
            case Padding => Decoded(text, |text|, done)
            case Invalid => Digits(text) == done && Broken(text)
  {
    var rest := text[at..];
    assert rest[0] == text[at] && rest[1..] == text[at + 1..];
    if ClassOf(text[at]).Digit? {
      var v := ClassOf(text[at]).value;
      assert done + ([v] + Digits(rest[1..])) == (done + [v]) + Digits(rest[1..]);
    }
  }

  lemma AtStart(text: seq<byte>)
    ensures Decoded(text, 0, []) && WholeBytes([]) == [] && Number([]) == 0
  {
    assert text[0..] == text;
  }

  lemma AtEnd(text: seq<byte>, done: seq<sextet>)
    requires Decoded(text, |text|, done)
    ensures Digits(text) == done && !Broken(text)
  {
  }

  lemma NoRoom(text: seq<byte>, at: nat, done: seq<sextet>, size: nat)
    requires at <= |text| && Decoded(text, at, done) && |done| / 4 * 3 > size
    ensures DecodeStatus(text, size) == BufTooSmall
  {
  }

  /** All whole groups there are so far have been written. */
  lemma StatusIs(text: seq<byte>, done: seq<sextet>, iter: nat, len: nat, size: nat)
    requires Digits(text) == done && iter < 4 && iter <= |done| && (|done| - iter) % 4 == 0
    requires len == |WholeBytes(done[..|done| - iter])| <= size
    ensures DecodeStatus(text, size) == if Broken(text) then InvalidData
                                        else if |Decoding(done)| > size then BufTooSmall else Ok
  {
    WholeSize(done[..|done| - iter]);
  }

  method Decode(text: array<byte>, out: array<byte>) returns (status: Status, len: nat)
    requires text != out
    modifies out
    ensures status == DecodeStatus(text[..], out.Length)
    ensures status == Ok ==> len == |Decoding(Digits(text[..]))| <= out.Length
                             && out[..len] == Decoding(Digits(text[..]))
    ensures status == Ok ==> Decodes(text[..], out.Length, Ok, out[..len])
    ensures status != Ok ==> Decodes(text[..], out.Length, status, [])
  {
    DecodesIs(text[..], out.Length);
    hide Decodes;
    hide Digits, Broken, Decoding, WholeBytes, DecodeStatus, Number, ClassOf;
    var at: nat, buf: nat, iter: nat := 0, 0, 0;
    len := 0;
    ghost var done: seq<sextet> := [];
    AtStart(text[..]);
    while at < text.Length
      invariant at <= text.Length && Decoded(text[..], at, done) && Collected(out, done, buf, iter, len)
    {
      var c := ClassOf(text[at]);
      Advance(text[..], at, done);
      at := at + 1;
      match c
      case Whitespace =>
      case Invalid =>
        StatusIs(text[..], done, iter, len, out.Length);
        return InvalidData, len;
      case Padding =>
        at := text.Length;
      case Digit(v) =>
        var ok;
        ok, buf, iter, len := TakeDigit(out, done, buf, iter, len, v);
        done := done + [v];
        if !ok {
          NoRoom(text[..], at, done, out.Length);
          return BufTooSmall, len;
        }
    }
    AtEnd(text[..], done);
    StatusIs(text[..], done, iter, len, out.Length);
    status, len := Finish(out, done, buf, iter, len);
  }

  /** Takes in one digit; the fourth one makes up a group, which is written. */
  method TakeDigit(out: array<byte>, ghost done: seq<sextet>, buf: nat, iter: nat, len: nat, v: sextet)
    returns (ok: bool, buf': nat, iter': nat, len': nat)
    requires Collected(out, done, buf, iter, len)
    modifies out
    ensures ok ==> Collected(out, done + [v], buf', iter', len')
    ensures !ok ==> |done + [v]| / 4 * 3 > out.Length
  {
    hide WholeBytes;
    buf', iter', len' := buf * 64 + v, iter + 1, len;
    ghost var k := |done| - iter;
    assert (done + [v])[..k] == done[..k] && (done + [v])[k..] == done[k..] + [v];
    if iter' == 4 {
      WholeSize(done[..k]);
      len' := len' + 3;
      if len' > out.Length {
        return false, buf', iter', len';
      }
      WholeStep(done, v);
      WriteGroup(out, len, buf');
      assert (done + [v])[..|done + [v]|] == done + [v];
      buf', iter' := 0, 0;
    }
    return true, buf', iter', len';
  }

  method WriteGroup(out: array<byte>, len: nat, n: nat)
    requires len + 3 <= out.Length
    modifies out
    ensures out[..len + 3] == old(out[..len]) + [ByteOf(n / 0x1_0000), ByteOf(n / 0x100), ByteOf(n)]
  {
    out[len], out[len + 1], out[len + 2] := ByteOf(n / 0x1_0000), ByteOf(n / 0x100), ByteOf(n);
  }

  /** Writes what the last digits say that do not make up a group of four. */
  method Finish(out: array<byte>, ghost done: seq<sextet>, buf: nat, iter: nat, len: nat)
    returns (status: Status, len': nat)
    requires Collected(out, done, buf, iter, len)
    modifies out
    ensures status == if |Decoding(done)| > out.Length then BufTooSmall else Ok
    ensures status == Ok ==> len' == |Decoding(done)| <= out.Length && out[..len'] == Decoding(done)
  {
    hide WholeBytes, Decoding, Number;
    ghost var k := |done| - iter;
    DecodingParts(done[..k], done[k..]);
    assert done[..k] + done[k..] == done;
    len' := len;
    if iter == 3 {
      len' := len' + 2;
      if len' > out.Length {
        return BufTooSmall, len';
      }
      out[len], out[len + 1] := ByteOf(buf / 1024), ByteOf(buf / 4);
    } else if iter == 2 {
      len' := len' + 1;
      if len' > out.Length {
        return BufTooSmall, len';
      }
      out[len] := ByteOf(buf / 16);
    }
    return Ok, len';
  }


  // ---------------------------------------------------------------- there and back

  function WithoutNewlines(text: seq<byte>): seq<byte> {
    if text == [] then []
    else (if text[0] == NEWLINE then [] else [text[0]]) + WithoutNewlines(text[1..])
  }

  lemma {:induction false} NewlinesIgnored(text: seq<byte>)
    ensures Digits(text) == Digits(WithoutNewlines(text)) && (Broken(text) <==> Broken(WithoutNewlines(text)))
  {
    if text != [] {
      NewlinesIgnored(text[1..]);
      var t := WithoutNewlines(text);
      if text[0] == NEWLINE {
        assert t == WithoutNewlines(text[1..]);
      } else {
        assert t[0] == text[0] && t[1..] == WithoutNewlines(text[1..]);
      }
    }
  }

  lemma {:induction false} DigitsOfChars(d: seq<sextet>, tail: seq<byte>)
    ensures Digits(Chars(d) + tail) == d + Digits(tail)
    ensures Broken(Chars(d) + tail) <==> Broken(tail)
  {
    var text := Chars(d) + tail;
    if d == [] {
      assert text == tail;
    } else {
      assert text[1..] == Chars(d[1..]) + tail;
      DigitsOfChars(d[1..], tail);
    }
  }

  lemma DigitsOfPadding(n: nat)
    ensures Digits(PaddingOf(n)) == [] && !Broken(PaddingOf(n))
  {
  }

  /** Where the bits of three bytes go: six and two, four and four, two and six. */
  lemma BitsCut(a: byte, b: byte, c: byte)
    ensures var n: int := (a as int) * 0x1_0000 + (b as int) * 0x100 + c;
            && n / 0x4_0000 % 64 == a / 4 && n / 0x1000 % 64 == a % 4 * 16 + b / 16
            && n / 64 % 64 == b % 16 * 4 + c / 64 && n % 64 == c % 64
  {
    var n: int := (a as int) * 0x1_0000 + (b as int) * 0x100 + c;
    var h, i, j, k := a / 4, a % 4 * 16 + b / 16, b % 16 * 4 + c / 64, c % 64;
    assert a == 4 * (a / 4) + a % 4 && b == 16 * (b / 16) + b % 16 && c == 64 * (c / 64) + c % 64;
    assert n == h * 0x4_0000 + i * 0x1000 + j * 64 + k;
    SeqNum.DivModUnique(0x4_0000, h, i * 0x1000 + j * 64 + k);
    SeqNum.DivModUnique(0x1000, h * 64 + i, j * 64 + k);
    SeqNum.DivModUnique(64, (h * 64 + i) * 64 + j, k);
    SeqNum.DivModUnique(64, h, i);
    SeqNum.DivModUnique(64, h * 64 + i, j);
  }

  lemma GroupCut(g: seq<byte>)
    requires 0 < |g| <= 3
    ensures var b, c := if |g| > 1 then g[1] else 0, if |g| > 2 then g[2] else 0;
            var d := GroupSextets(g);
            && d[0] == g[0] / 4 && d[1] == g[0] % 4 * 16 + b / 16
            && (|g| > 1 ==> d[2] == b % 16 * 4 + c / 64) && (|g| > 2 ==> d[3] == c % 64)
  {
    BitsCut(g[0], if |g| > 1 then g[1] else 0, if |g| > 2 then g[2] else 0);
  }

  /** Six bit groups give back the bytes they were cut from. */
  lemma FullGroupBack(g: seq<byte>)
    requires |g| == 3
    ensures var n := Number(GroupSextets(g));
            [ByteOf(n / 0x1_0000), ByteOf(n / 0x100), ByteOf(n)] == g
  {
    var d := GroupSextets(g);
    GroupCut(g);
    NumberOf4(d);
    Join3(g[0], g[1], g[2]);
  }

  lemma Join3(a: byte, b: byte, c: byte)
    ensures var n: int := (((a as int / 4) * 64 + (a as int % 4 * 16 + b as int / 16)) * 64
                          + (b as int % 16 * 4 + c as int / 64)) * 64 + c as int % 64;
            n / 0x1_0000 % 0x100 == a && n / 0x100 % 0x100 == b && n % 0x100 == c
  {
    var n: int := (((a as int / 4) * 64 + (a as int % 4 * 16 + b as int / 16)) * 64
                  + (b as int % 16 * 4 + c as int / 64)) * 64 + c as int % 64;
    assert n == (a as int) * 0x1_0000 + (b as int) * 0x100 + c;
    assert n / 0x1_0000 == a && n / 0x100 == (a as int) * 0x100 + b;
  }

  lemma Join2(a: byte, b: byte)
    ensures var n: int := ((a as int / 4) * 64 + (a as int % 4 * 16 + b as int / 16)) * 64 + b as int % 16 * 4;
            n / 1024 % 0x100 == a && n / 4 % 0x100 == b
  {
    var n: int := ((a as int / 4) * 64 + (a as int % 4 * 16 + b as int / 16)) * 64 + b as int % 16 * 4;
    assert n == (a as int) * 1024 + (b as int) * 4;
    assert n / 1024 == a && n / 4 == (a as int) * 0x100 + b;
  }

  lemma NumberOf4(d: seq<sextet>)
    requires |d| == 4
    ensures Number(d) == ((d[0] as int * 64 + d[1]) * 64 + d[2]) * 64 + d[3]
  {
    NumberOf3(d[..3]);
  }

  lemma NumberOf3(d: seq<sextet>)
    requires |d| == 3
    ensures Number(d) == (d[0] as int * 64 + d[1]) * 64 + d[2]
  {
    NumberOf2(d[..2]);
  }

  lemma NumberOf2(d: seq<sextet>)
    requires |d| == 2
    ensures Number(d) == d[0] as int * 64 + d[1]
  {
    assert d[..1] == [d[0]] && d[..1][..0] == [];
    assert Number(d[..1]) == d[0];
  }

  lemma LastGroupBack(g: seq<byte>)
    requires 0 < |g| < 3
    ensures LastBytes(GroupSextets(g)) == g
  {
    var d := GroupSextets(g);
    GroupCut(g);
    if |g| == 2 {
      NumberOf3(d);
      Join2(g[0], g[1]);
    } else {
      NumberOf2(d);
      assert Number(d) == (g[0] as int) * 16;
    }
  }

  lemma {:induction false} SextetsBack(s: seq<byte>)
    ensures Decoding(Sextets(s)) == s
  {
    if s != [] {
      var k := LastGroup(|s|);
      SextetsBack(s[..k]);
      NextBack(Sextets(s[..k]), s[..k], s[k..]);
      assert s[..k] + s[k..] == s;
    }
  }

  lemma NextBack(d: seq<sextet>, before: seq<byte>, group: seq<byte>)
    requires d == Sextets(before) && |before| % 3 == 0 && 0 < |group| <= 3 && Decoding(d) == before
    ensures Decoding(d + GroupSextets(group)) == before + group
  {
    hide *;
    SextetsSize(before);
    WholeSextets(|before|);
    DecodingParts(d, []);
    LastOfNone();
    assert d + [] == d && WholeBytes(d) + [] == WholeBytes(d);
    GroupBack(d, group);
  }

  lemma WholeSextets(k: nat)
    requires k % 3 == 0
    ensures SextetsCount(k) % 4 == 0
  {
    assert k == 3 * (k / 3) && (k + 2) / 3 == k / 3;
  }

  /** Whole groups of digits are decoded for themselves. */
  lemma DecodingParts(d: seq<sextet>, e: seq<sextet>)
    requires |d| % 4 == 0 && |e| < 4
    ensures Decoding(d + e) == WholeBytes(d) + LastBytes(e)
  {
    hide *;
    WholeIs(|d|, |e|);
    DecodingAt(d + e, |d|);
    SplitAt(d, e);
  }

  lemma SplitAt(d: seq<sextet>, e: seq<sextet>)
    ensures (d + e)[..|d|] == d && (d + e)[|d|..] == e
  {
  }

  lemma DecodingAt(all: seq<sextet>, k: nat)
    requires k == Whole(|all|)
    ensures Decoding(all) == WholeBytes(all[..k]) + LastBytes(all[k..])
  {
    hide WholeBytes, LastBytes, Whole;
  }

  lemma WholeIs(m: nat, n: nat)
    requires m % 4 == 0 && n < 4
    ensures Whole(m + n) == m
  {
    assert m + n == 4 * (m / 4) + n;
    assert (m + n) / 4 == m / 4;
  }

  lemma WholeAppend(d: seq<sextet>, e: seq<sextet>)
    requires |d| % 4 == 0 && |e| == 4
    ensures WholeBytes(d + e)
            == WholeBytes(d) + [ByteOf(Number(e) / 0x1_0000), ByteOf(Number(e) / 0x100), ByteOf(Number(e))]
  {
    assert (d + e)[..|d + e| - 4] == d && (d + e)[|d + e| - 4..] == e;
  }

  lemma GroupBack(d: seq<sextet>, g: seq<byte>)
    requires |d| % 4 == 0 && 0 < |g| <= 3
    ensures Decoding(d + GroupSextets(g)) == WholeBytes(d) + g
  {
    hide *;
    if |g| == 3 {
      WholeGroupBack(d, g);
    } else {
      LastGroupBack(g);
      DecodingParts(d, GroupSextets(g));
    }
  }

  lemma WholeGroupBack(d: seq<sextet>, g: seq<byte>)
    requires |d| % 4 == 0 && |g| == 3
    ensures Decoding(d + GroupSextets(g)) == WholeBytes(d) + g
  {
    hide *;
    FullGroupBack(g);
    WholeAppend(d, GroupSextets(g));
    WholeDecoding(d + GroupSextets(g));
  }

  lemma WholeDecoding(d: seq<sextet>)
    requires |d| % 4 == 0
    ensures Decoding(d) == WholeBytes(d)
  {
    hide *;
    DecodingParts(d, []);
    assert d + [] == d;
    LastOfNone();
  }

  lemma LastOfNone()
    ensures LastBytes([]) == []
  {
  }

  // ---------------------------------------------------------------- what decoding comes to

  lemma DecodingPacks(d: seq<sextet>)
    ensures Packs(d, Decoding(d))
  {
    hide *;
    var k := WholePart(d);
    WholePacks(d[..k]);
    LastPacks(d[k..]);
    PacksJoin(d[..k], WholeBytes(d[..k]), d[k..], LastBytes(d[k..]));
    assert d[..k] + d[k..] == d;
  }

  lemma WholePart(d: seq<sextet>) returns (k: nat)
    ensures k % 4 == 0 && k <= |d| < k + 4 && Decoding(d) == WholeBytes(d[..k]) + LastBytes(d[k..])
  {
    k := Whole(|d|);
  }

  lemma {:induction false} WholePacks(d: seq<sextet>)
    requires |d| % 4 == 0
    ensures Packs(d, WholeBytes(d))
  {
    if d != [] {
      hide Packs, WholeBytes, ByteOf, Number;
      var k := |d| - 4;
      WholePacks(d[..k]);
      GroupPacks(d[k..]);
      WholeAppend(d[..k], d[k..]);
      assert d[..k] + d[k..] == d;
      var n := Number(d[k..]);
      PacksJoin(d[..k], WholeBytes(d[..k]), d[k..], [ByteOf(n / 0x1_0000), ByteOf(n / 0x100), ByteOf(n)]);
    }
  }

  lemma GroupPacks(d: seq<sextet>)
    requires |d| == 4
    ensures var n := Number(d); Packs(d, [ByteOf(n / 0x1_0000), ByteOf(n / 0x100), ByteOf(n)])
  {
    NumberOf4(d);
    BytesOf4(d[0], d[1], d[2], d[3]);
    hide Number;
  }

  lemma LastPacks(d: seq<sextet>)
    requires |d| < 4
    ensures Packs(d, LastBytes(d))
  {
    if |d| == 3 {
      NumberOf3(d);
      BytesOf3(d[0], d[1], d[2]);
    } else if |d| == 2 {
      NumberOf2(d);
      BytesOf2(d[0], d[1]);
    }
    hide Number;
  }

  lemma BytesOf2(a: sextet, b: sextet)
    ensures var n: int := a as int * 64 + b;
            n / 16 % 0x100 == a as int * 4 + b / 16
  {
  }

  lemma BytesOf3(a: sextet, b: sextet, c: sextet)
    ensures var n: int := (a as int * 64 + b) * 64 + c;
            n / 1024 % 0x100 == a as int * 4 + b / 16 && n / 4 % 0x100 == b as int % 16 * 16 + c / 4
  {
    var n: int := (a as int * 64 + b) * 64 + c;
    var q, r := a as int * 4 + b / 16, b as int % 16;
    assert b == 16 * (b / 16) + r && c == 4 * (c / 4) + c % 4;
    SeqNum.DivModUnique(1024, q, r * 64 + c);
    SeqNum.DivModUnique(4, q * 0x100 + (r * 16 + c / 4), c % 4);
    SeqNum.DivModUnique(0x100, q, r * 16 + c / 4);
  }

  lemma BytesOf4(a: sextet, b: sextet, c: sextet, d: sextet)
    ensures var n: int := ((a as int * 64 + b) * 64 + c) * 64 + d;
            && n / 0x1_0000 % 0x100 == a as int * 4 + b / 16
            && n / 0x100 % 0x100 == b as int % 16 * 16 + c / 4
            && n % 0x100 == c as int % 4 * 64 + d
  {
    var n: int := ((a as int * 64 + b) * 64 + c) * 64 + d;
    BytesOf3(a, b, c);
    assert n / 64 == (a as int * 64 + b) * 64 + c;
    assert n / 0x1_0000 == n / 64 / 1024 && n / 0x100 == n / 64 / 4;
  }

  /** Whole groups are packed for themselves. */
  lemma PacksJoin(d: seq<sextet>, bytes: seq<byte>, e: seq<sextet>, more: seq<byte>)
    requires |d| % 4 == 0 && Packs(d, bytes) && Packs(e, more)
    ensures Packs(d + e, bytes + more)
  {
    var m := |d| / 4;
    assert |d| == 4 * m && |bytes| == 3 * m;
    var all, out := d + e, bytes + more;
    forall j: nat | 3 * j < |out| ensures out[3 * j] == all[4 * j] as int * 4 + all[4 * j + 1] / 16 {
      if j >= m { assert more[3 * (j - m)] == e[4 * (j - m)] as int * 4 + e[4 * (j - m) + 1] / 16; }
    }
    forall j: nat | 3 * j + 1 < |out| ensures out[3 * j + 1] == all[4 * j + 1] as int % 16 * 16 + all[4 * j + 2] / 4 {
      if j >= m {
        assert more[3 * (j - m) + 1] == e[4 * (j - m) + 1] as int % 16 * 16 + e[4 * (j - m) + 2] / 4;
      }
    }
    forall j: nat | 3 * j + 2 < |out| ensures out[3 * j + 2] == all[4 * j + 2] as int % 4 * 64 + all[4 * j + 3] {
      if j >= m { assert more[3 * (j - m) + 2] == e[4 * (j - m) + 2] as int % 4 * 64 + e[4 * (j - m) + 3]; }
    }
  }

  // ---------------------------------------------------------------- there and back again

  /** Decoding an encoding gives back the bytes, with newlines wherever they may be, if and only if there is room
      for them. */
  lemma RoundTrip(s: seq<byte>, text: seq<byte>, size: nat)
    requires WithoutNewlines(text) == Encoding(s)
    ensures Decoding(Digits(text)) == s
    ensures DecodeStatus(text, size) == if |s| <= size then Ok else BufTooSmall
  {
    hide Digits, Broken, Decoding, Sextets;
    NewlinesIgnored(text);
    DigitsOfChars(Sextets(s), PaddingOf(|s|));
    DigitsOfPadding(|s|);
    SextetsBack(s);
    assert Digits(text) == Sextets(s);
    WholeIsPart(Sextets(s));
  }

  lemma WholeIsPart(d: seq<sextet>)
    ensures |d| / 4 * 3 <= |Decoding(d)|
  {
    var k := Whole(|d|);
    WholeSize(d[..k]);
    assert k / 4 == |d| / 4;
  }

  lemma {:induction false} NoNewlines(text: seq<byte>)
    requires NEWLINE !in text
    ensures WithoutNewlines(text) == text
  {
    if text != [] { NoNewlines(text[1..]); }
  }

  /** Encodes some bytes, breaks the text into lines in whatever way, and decodes it. */
  method Transport(data: array<byte>, breakLines: seq<byte> -> seq<byte>) returns (copy: seq<byte>)
    requires forall t: seq<byte> :: WithoutNewlines(breakLines(t)) == WithoutNewlines(t)
    ensures copy == data[..]
  {
    var size := EncodedSize(data.Length);
    var out := new byte[size + 1];
    var ok := Encode(data, out);
    NoNewlines(Encoding(data[..]));
    var broken := breakLines(out[..size]);
    var text := new byte[|broken|](i requires 0 <= i < |broken| => broken[i]);
    assert text[..] == broken;
    var back := new byte[data.Length];
    RoundTrip(data[..], broken, data.Length);
    var status, len := Decode(text, back);
    copy := back[..len];
  }
}
