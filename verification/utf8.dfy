/**
 The table-driven UTF-8 decoder of the text pipeline (Bjoern Hoehrmann's DFA).

 One call of `Decode` consumes one byte. The automaton has nine states: 0 is
 ACCEPT (a whole scalar value has just been read, or nothing has started), 1 is
 REJECT, and 2..8 are "inside a multi-byte sequence" states that remember how
 many continuation bytes are still due and which ranges they may take. The
 well-formedness rules are those of section 4 of RFC 3629; the value is rebuilt
 from the bit layout of section 3 of RFC 3629.

 REJECT is a sink: its transition row is all REJECT and the text loops never
 reset the state, so after the first malformed byte a string yields no further
 codepoints.
 */
module Utf8 {
  import opened CArith

  type Byte = b: int | 0 <= b < 256

  const Accept: int := 0
  const Reject: int := 1

  /**
   The `utf8d` table exactly as printed in the source, one entry of this
   sequence per printed row. Rows 0..7 (32 entries each) map a byte to its
   character class; row 8 (16 entries) is the transition row of state 0 and rows
   9..12 (32 entries each) hold the rows of states 1..8, two states per row.
   */
  const Utf8dRows: seq<seq<int>> := [
    [0,0,0,0,0,0,0,0,0,0,0,0,0,0,0,0,0,0,0,0,0,0,0,0,0,0,0,0,0,0,0,0], // 00..1f
    [0,0,0,0,0,0,0,0,0,0,0,0,0,0,0,0,0,0,0,0,0,0,0,0,0,0,0,0,0,0,0,0], // 20..3f
    [0,0,0,0,0,0,0,0,0,0,0,0,0,0,0,0,0,0,0,0,0,0,0,0,0,0,0,0,0,0,0,0], // 40..5f
    [0,0,0,0,0,0,0,0,0,0,0,0,0,0,0,0,0,0,0,0,0,0,0,0,0,0,0,0,0,0,0,0], // 60..7f
    [1,1,1,1,1,1,1,1,1,1,1,1,1,1,1,1,9,9,9,9,9,9,9,9,9,9,9,9,9,9,9,9], // 80..9f
    [7,7,7,7,7,7,7,7,7,7,7,7,7,7,7,7,7,7,7,7,7,7,7,7,7,7,7,7,7,7,7,7], // a0..bf
    [8,8,2,2,2,2,2,2,2,2,2,2,2,2,2,2,2,2,2,2,2,2,2,2,2,2,2,2,2,2,2,2], // c0..df
    [0xa,0x3,0x3,0x3,0x3,0x3,0x3,0x3,0x3,0x3,0x3,0x3,0x3,0x4,0x3,0x3,  // e0..ef
     0xb,0x6,0x6,0x6,0x5,0x8,0x8,0x8,0x8,0x8,0x8,0x8,0x8,0x8,0x8,0x8], // f0..ff
    [0x0,0x1,0x2,0x3,0x5,0x8,0x7,0x1,0x1,0x1,0x4,0x6,0x1,0x1,0x1,0x1], // s0..s0
    [1,1,1,1,1,1,1,1,1,1,1,1,1,1,1,1,1,0,1,1,1,1,1,0,1,0,1,1,1,1,1,1], // s1..s2
    [1,2,1,1,1,1,1,2,1,2,1,1,1,1,1,1,1,1,1,1,1,1,1,2,1,1,1,1,1,1,1,1], // s3..s4
    [1,2,1,1,1,1,1,1,1,2,1,1,1,1,1,1,1,1,1,1,1,1,1,3,1,3,1,1,1,1,1,1], // s5..s6
    [1,3,1,1,1,1,1,3,1,3,1,1,1,1,1,1,1,3,1,1,1,1,1,1,1,1,1,1,1,1,1,1]  // s7..s8
  ]

  const TableSize: int := 400

  /** Entry `i` of the flat 400-entry `utf8d` array. */
  function Utf8d(i: int): int
    requires 0 <= i < TableSize
  {
    if i < 256 then Utf8dRows[i / 32][i % 32]
    else if i < 272 then Utf8dRows[8][i - 256]
    else Utf8dRows[9 + (i - 272) / 32][(i - 272) % 32]
  }

  // ---------------------------------------------------------------------------
  // The table read as ranges. These two functions are the proof vocabulary; the
  // lemmas `ByteClassTable` and `TransitionTable` show they agree with `Utf8d`.

  /** The character class of a byte, as the byte ranges of RFC 3629 section 4. */
  function ClassOf(b: Byte): int {
    if b < 0x80 then 0          // ASCII
    else if b < 0x90 then 1     // continuation 80..8F
    else if b < 0xA0 then 9     // continuation 90..9F
    else if b < 0xC0 then 7     // continuation A0..BF
    else if b < 0xC2 then 8     // C0, C1: never valid
    else if b < 0xE0 then 2     // lead of a 2-byte sequence
    else if b == 0xE0 then 10   // lead of a 3-byte sequence, second byte A0..BF
    else if b == 0xED then 4    // lead of a 3-byte sequence, second byte 80..9F
    else if b < 0xF0 then 3     // lead of a 3-byte sequence
    else if b == 0xF0 then 11   // lead of a 4-byte sequence, second byte 90..BF
    else if b < 0xF4 then 6     // lead of a 4-byte sequence
    else if b == 0xF4 then 5    // lead of a 4-byte sequence, second byte 80..8F
    else 8                      // F5..FF: never valid
  }

  predicate IsContinuationClass(t: int) {
    t == 1 || t == 9 || t == 7
  }

  /** The transition of the automaton, state by state. */
  function NextState(s: int, t: int): int {
    if s == 0 then
      if t == 0 then 0
      else if t == 2 then 2
      else if t == 3 then 3
      else if t == 4 then 5
      else if t == 5 then 8
      else if t == 6 then 7
      else if t == 10 then 4
      else if t == 11 then 6
      else Reject
    else if s == 2 then (if IsContinuationClass(t) then 0 else Reject)
    else if s == 3 then (if IsContinuationClass(t) then 2 else Reject)
    else if s == 4 then (if t == 7 then 2 else Reject)
    else if s == 5 then (if t == 1 || t == 9 then 2 else Reject)
    else if s == 6 then (if t == 7 || t == 9 then 3 else Reject)
    else if s == 7 then (if IsContinuationClass(t) then 3 else Reject)
    else if s == 8 then (if t == 1 then 3 else Reject)
    else Reject
  }

  lemma ByteRow0(k: int) requires 0 <= k < 32 ensures Utf8dRows[0][k] == ClassOf(k) {}
  lemma ByteRow1(k: int) requires 0 <= k < 32 ensures Utf8dRows[1][k] == ClassOf(0x20 + k) {}
  lemma ByteRow2(k: int) requires 0 <= k < 32 ensures Utf8dRows[2][k] == ClassOf(0x40 + k) {}
  lemma ByteRow3(k: int) requires 0 <= k < 32 ensures Utf8dRows[3][k] == ClassOf(0x60 + k) {}
  lemma ByteRow4(k: int) requires 0 <= k < 32 ensures Utf8dRows[4][k] == ClassOf(0x80 + k) {}
  lemma ByteRow5(k: int) requires 0 <= k < 32 ensures Utf8dRows[5][k] == ClassOf(0xA0 + k) {}
  lemma ByteRow6(k: int) requires 0 <= k < 32 ensures Utf8dRows[6][k] == ClassOf(0xC0 + k) {}
  lemma ByteRow7(k: int) requires 0 <= k < 32 ensures Utf8dRows[7][k] == ClassOf(0xE0 + k) {}

  /** The first 256 entries of `utf8d` are exactly the byte classes of `ClassOf`. */
  lemma ByteClassTable(b: Byte)
    ensures Utf8d(b) == ClassOf(b)
    ensures 0 <= Utf8d(b) <= 11
  {
    var r, k := b / 32, b % 32;
    assert b == 32 * r + k;
    if r == 0 { ByteRow0(k); }
    else if r == 1 { ByteRow1(k); }
    else if r == 2 { ByteRow2(k); }
    else if r == 3 { ByteRow3(k); }
    else if r == 4 { ByteRow4(k); }
    else if r == 5 { ByteRow5(k); }
    else if r == 6 { ByteRow6(k); }
    else { ByteRow7(k); }
  }

  lemma StateRow0(t: int) requires 0 <= t < 16 ensures Utf8dRows[8][t] == NextState(0, t) {}
  lemma StateRow12(k: int)
    requires 0 <= k < 32 ensures Utf8dRows[9][k] == NextState(1 + k / 16, k % 16) {}
  lemma StateRow34(k: int)
    requires 0 <= k < 32 ensures Utf8dRows[10][k] == NextState(3 + k / 16, k % 16) {}
  lemma StateRow56(k: int)
    requires 0 <= k < 32 ensures Utf8dRows[11][k] == NextState(5 + k / 16, k % 16) {}
  lemma StateRow78(k: int)
    requires 0 <= k < 32 ensures Utf8dRows[12][k] == NextState(7 + k / 16, k % 16) {}

  /**
   The transition part of `utf8d` is `NextState`; in particular every entry is a
   state 0..8, so the index `256 + state*16 + type` of the next lookup stays below
   the table's 400 entries.
   */
  lemma TransitionTable(s: int, t: int)
    requires 0 <= s <= 8 && 0 <= t < 16
    ensures 256 + s * 16 + t < TableSize
    ensures Utf8d(256 + s * 16 + t) == NextState(s, t)
    ensures 0 <= Utf8d(256 + s * 16 + t) <= 8
  {
    if s == 0 {
      assert Utf8d(256 + t) == Utf8dRows[8][t];
      StateRow0(t);
    } else {
      PendingTransition(s, t);
    }
  }

  /** States 1..8 sit two to a printed row of the table, from row 9 on. */
  lemma PendingTransition(s: int, t: int)
    requires 1 <= s <= 8 && 0 <= t < 16
    ensures Utf8d(256 + s * 16 + t) == NextState(s, t)
  {
    var i := 256 + s * 16 + t;
    var row, col := 9 + (s - 1) / 2, (s - 1) % 2 * 16 + t;
    assert (i - 272) / 32 == (s - 1) / 2 && (i - 272) % 32 == col;
    assert Utf8d(i) == Utf8dRows[row][col];
    assert col / 16 == (s - 1) % 2 && col % 16 == t;
    if row == 9 { StateRow12(col); }
    else if row == 10 { StateRow34(col); }
    else if row == 11 { StateRow56(col); }
    else { StateRow78(col); }
  }

  // ---------------------------------------------------------------------------
  // One step: `decode(&state, &codep, byte)`.

  /** The decoder's two `uint32_t` variables. */
  datatype Decoder = Decoder(state: int, codep: int)

  predicate Valid(d: Decoder) {
    0 <= d.state <= 8 && IsUint32(d.codep)
  }

  /** The state both text loops start from; `codep` is never read in state 0. */
  const Start: Decoder := Decoder(Accept, 0)

  /** `(0xff >> type) & byte`: the payload bits of a lead byte. */
  function LeadBits(b: Byte, t: int): (r: Byte)
    requires 0 <= t <= 11
  {
    // 0xff >> t is 2^(8-t) - 1 for t < 8 and 0 from t = 8 on; masking with
    // 2^k - 1 keeps the remainder modulo 2^k.
    if t >= 8 then 0 else b % [0x100, 0x80, 0x40, 0x20, 0x10, 0x8, 0x4, 0x2][t]
  }

  /**
   `(byte & 0x3f) | (codep << 6)` on `uint32_t`: the six payload bits of a
   continuation byte appended below the value so far, whose top six bits fall off.
   */
  function Append6(codep: int, b: Byte): (r: int)
    requires IsUint32(codep)
    ensures IsUint32(r)
    ensures r % 64 == b % 64
    ensures codep < 0x400_0000 ==> r == codep * 64 + b % 64
  {
    (codep % 0x400_0000) * 64 + b % 64
  }

  /**
   One call of `decode` exactly as written: look up the byte's class in the
   first 256 entries of `utf8d`, rebuild the value, and look up the next state at
   `256 + state*16 + type`.
   */
  function TableDecode(d: Decoder, b: Byte): (r: Decoder)
    requires Valid(d)
    ensures Valid(r)
  {
    ByteClassTable(b);
    var t := Utf8d(b);
    TransitionTable(d.state, t);
    var codep := if d.state != Accept then Append6(d.codep, b) else LeadBits(b, t);
    Decoder(Utf8d(256 + d.state * 16 + t), codep)
  }

  /**
   The same step with the two table lookups read through `ClassOf` and
   `NextState`; `DecodeMatchesTable` shows the two agree on every state and
   byte. The rest of the model uses this form, which keeps the 400-entry table
   out of every later proof.
   */
  function Decode(d: Decoder, b: Byte): (r: Decoder)
    requires Valid(d)
    ensures Valid(r)
    ensures d.state == Reject ==> r.state == Reject
    ensures d.state == Accept && b < 0x80 ==> r == Decoder(Accept, b)
    ensures d.state == Accept && 0x80 <= b < 0xC2 ==> r.state == Reject
    ensures d.state == Accept && 0xF5 <= b ==> r.state == Reject
  {
    var t := ClassOf(b);
    var codep := if d.state != Accept then Append6(d.codep, b) else LeadBits(b, t);
    Decoder(NextState(d.state, t), codep)
  }

  lemma DecodeMatchesTable(d: Decoder, b: Byte)
    requires Valid(d)
    ensures TableDecode(d, b) == Decode(d, b)
  {
    ByteClassTable(b);
    TransitionTable(d.state, ClassOf(b));
  }

  /** Feeding every byte of `bytes` in turn. */
  function Run(d: Decoder, bytes: seq<Byte>): (r: Decoder)
    requires Valid(d)
    ensures Valid(r)
    decreases |bytes|
  {
    if |bytes| == 0 then d else Run(Decode(d, bytes[0]), bytes[1..])
  }

  // ---------------------------------------------------------------------------
  // The text loops: `while (*text) { if (decode(...)) continue; ... }`.

  /** The bytes of a C string: everything before the first NUL. */
  predicate NoNul(bytes: seq<Byte>) {
    forall k :: 0 <= k < |bytes| ==> bytes[k] != 0
  }

  /**
   The codepoints the text loops act on: every byte up to the first NUL is fed
   to the decoder, and a codepoint is produced exactly when the returned state is
   ACCEPT.
   */
  function Scan(d: Decoder, text: seq<Byte>): (cps: seq<int>)
    requires Valid(d)
    ensures forall k :: 0 <= k < |cps| ==> IsUint32(cps[k])
    decreases |text|
  {
    if |text| == 0 || text[0] == 0 then []
    else
      var d' := Decode(d, text[0]);
      (if d'.state == Accept then [d'.codep] else []) + Scan(d', text[1..])
  }

  function Codepoints(text: seq<Byte>): seq<int> {
    Scan(Start, text)
  }

  /** Once in REJECT, the rest of the string yields nothing. */
  lemma {:induction false} ScanAfterReject(codep: int, text: seq<Byte>)
    requires IsUint32(codep)
    ensures Scan(Decoder(Reject, codep), text) == []
    decreases |text|
  {
    if |text| > 0 && text[0] != 0 {
      ScanAfterReject(Decode(Decoder(Reject, codep), text[0]).codep, text[1..]);
    }
  }

  /** Scanning a NUL-free prefix, then the rest from where the prefix left the decoder. */
  lemma {:induction false} ScanAppend(d: Decoder, a: seq<Byte>, b: seq<Byte>)
    requires Valid(d) && NoNul(a)
    ensures Scan(d, a + b) == Scan(d, a) + Scan(Run(d, a), b)
    decreases |a|
  {
    if |a| == 0 {
      assert a + b == b;
    } else {
      var d' := Decode(d, a[0]);
      assert (a + b)[0] == a[0] && (a + b)[1..] == a[1..] + b;
      assert Run(d, a) == Run(d', a[1..]);
      ScanAppend(d', a[1..], b);
    }
  }

  /** Feeding one more byte. */
  lemma {:induction false} RunSnoc(d: Decoder, a: seq<Byte>, b: Byte)
    requires Valid(d)
    ensures Run(d, a + [b]) == Decode(Run(d, a), b)
    decreases |a|
  {
    if |a| == 0 {
      assert a + [b] == [b];
    } else {
      assert (a + [b])[0] == a[0] && (a + [b])[1..] == a[1..] + [b];
      RunSnoc(Decode(d, a[0]), a[1..], b);
    }
  }

  /**
   One step of the text loops: one more non-NUL byte adds a codepoint exactly
   when it brings the decoder back to ACCEPT.
   */
  lemma ScanSnoc(d: Decoder, a: seq<Byte>, b: Byte)
    requires Valid(d) && NoNul(a) && b != 0
    ensures var d' := Run(d, a + [b]);
      Scan(d, a + [b]) == Scan(d, a) + (if d'.state == Accept then [d'.codep] else [])
  {
    ScanAppend(d, a, [b]);
    RunSnoc(d, a, b);
    assert [b][1..] == [];
  }

  /** One iteration of the text loops over `text`, in terms of its first `i` bytes. */
  lemma ScanStep(text: seq<Byte>, i: int)
    requires 0 <= i < |text| && text[i] != 0 && NoNul(text[..i])
    ensures NoNul(text[..i + 1])
    ensures Run(Start, text[..i + 1]) == Decode(Run(Start, text[..i]), text[i])
    ensures var d' := Run(Start, text[..i + 1]);
      Scan(Start, text[..i + 1]) == Scan(Start, text[..i]) + (if d'.state == Accept then [d'.codep] else [])
  {
    assert text[..i + 1] == text[..i] + [text[i]];
    ScanSnoc(Start, text[..i], text[i]);
    RunSnoc(Start, text[..i], text[i]);
  }

  /**
   One byte of a text loop: the byte, known not to be NUL, goes through the
   decoder, and the codepoints of the text so far grow by the codepoint it
   completes, if any.
   */
  method Next(text: seq<Byte>, i: int, d: Decoder) returns (d': Decoder)
    requires 0 <= i < |text| && text[i] != 0 && NoNul(text[..i])
    requires d == Run(Start, text[..i])
    ensures Valid(d') && d' == Run(Start, text[..i + 1]) && NoNul(text[..i + 1])
    ensures Scan(Start, text[..i + 1]) == Scan(Start, text[..i]) + (if d'.state == Accept then [d'.codep] else [])
  {
    ScanStep(text, i);
    d' := Decode(d, text[i]);
  }

  /** The text loops stop at the first NUL, or at the end of the bytes. */
  lemma ScanStopsAtNul(d: Decoder, text: seq<Byte>, i: int)
    requires Valid(d) && 0 <= i <= |text| && NoNul(text[..i])
    requires i == |text| || text[i] == 0
    ensures Scan(d, text) == Scan(d, text[..i])
  {
    ScanAppend(d, text[..i], text[i..]);
    assert text[..i] + text[i..] == text;
  }

  /**
   The quirk of the source: the first malformed byte ends decoding of the
   string. If feeding the NUL-free prefix `a` drives the decoder into REJECT,
   nothing after `a` contributes a codepoint.
   */
  lemma MalformedEndsString(a: seq<Byte>, b: seq<Byte>)
    requires NoNul(a) && Run(Start, a).state == Reject
    ensures Codepoints(a + b) == Codepoints(a)
  {
    ScanAppend(Start, a, b);
    ScanAfterReject(Run(Start, a).codep, b);
  }

  /** The single byte 0xFF yields no codepoint and leaves the decoder in REJECT (not in its initial state). */
  lemma LoneFF()
    ensures Codepoints([0xFF]) == []
    ensures Run(Start, [0xFF]).state == Reject
  {
    assert Decode(Start, 0xFF).state == Reject;
  }

  /**
   Bytes and pairs the automaton rejects from state 0: stray continuation
   bytes, the never-valid bytes C0, C1 and F5..FF, and the second bytes that make
   an E0, ED, F0 or F4 sequence overlong, a surrogate, or larger than 0x10FFFF.
   */
  lemma RejectsMalformed(c: int, b0: Byte, b1: Byte)
    requires IsUint32(c)
    ensures 0x80 <= b0 <= 0xC1 || 0xF5 <= b0 ==> Decode(Decoder(Accept, c), b0).state == Reject
    ensures b0 == 0xE0 && 0x80 <= b1 <= 0x9F ==> Run(Decoder(Accept, c), [b0, b1]).state == Reject
    ensures b0 == 0xED && 0xA0 <= b1 <= 0xBF ==> Run(Decoder(Accept, c), [b0, b1]).state == Reject
    ensures b0 == 0xF0 && 0x80 <= b1 <= 0x8F ==> Run(Decoder(Accept, c), [b0, b1]).state == Reject
    ensures b0 == 0xF4 && 0x90 <= b1 <= 0xBF ==> Run(Decoder(Accept, c), [b0, b1]).state == Reject
  {
    RunPair(Decoder(Accept, c), b0, b1);
  }

  lemma RunPair(d: Decoder, b0: Byte, b1: Byte)
    requires Valid(d)
    ensures Run(d, [b0, b1]) == Decode(Decode(d, b0), b1)
  {
    assert [b0, b1][1..] == [b1];
    assert [b1][1..] == [];
    calc {
      Run(d, [b0, b1]);
      Run(Decode(d, b0), [b1]);
      Run(Decode(Decode(d, b0), b1), []);
    }
  }

  // ---------------------------------------------------------------------------
  // Well-formed input: the encodings of section 3 of RFC 3629.

  /** A Unicode scalar value: at most 0x10FFFF and not a surrogate. */
  predicate IsScalar(cp: int) {
    0 <= cp <= 0x10FFFF && !(0xD800 <= cp <= 0xDFFF)
  }

  /** The UTF-8 encoding of a scalar value, by the bit layout of section 3 of RFC 3629. */
  function Encode(cp: int): (bs: seq<Byte>)
    requires IsScalar(cp)
    ensures 1 <= |bs| <= 4
    ensures cp != 0 ==> NoNul(bs)
  {
    if cp < 0x80 then [cp]
    else if cp < 0x800 then [0xC0 + cp / 0x40, 0x80 + cp % 0x40]
    else if cp < 0x10000 then [0xE0 + cp / 0x1000, 0x80 + cp / 0x40 % 0x40, 0x80 + cp % 0x40]
    else [0xF0 + cp / 0x40000, 0x80 + cp / 0x1000 % 0x40, 0x80 + cp / 0x40 % 0x40, 0x80 + cp % 0x40]
  }

  predicate Pending(d: Decoder) {
    2 <= d.state <= 8
  }

  /**
   Decoding the encoding of a scalar value from ACCEPT: every byte but the last
   leaves the decoder pending (state 2..8), and the last returns it to ACCEPT with
   the value rebuilt.
   */
  lemma DecodeEncoded(c: int, cp: int)
    requires IsUint32(c) && IsScalar(cp)
    ensures forall k :: 1 <= k < |Encode(cp)| ==> Pending(Run(Decoder(Accept, c), Encode(cp)[..k]))
    ensures Run(Decoder(Accept, c), Encode(cp)) == Decoder(Accept, cp)
  {
    var d0 := Decoder(Accept, c);
    var bs := Encode(cp);
    if cp < 0x80 {
      RunOne(d0, bs[0]);
    } else if cp < 0x800 {
      Decode2(c, cp);
      RunPair(d0, bs[0], bs[1]);
      RunOne(d0, bs[0]);
      assert bs[..1] == [bs[0]];
    } else if cp < 0x10000 {
      Decode3(c, cp);
      RunPrefixes3(d0, bs);
    } else {
      Decode4(c, cp);
      RunPrefixes4(d0, bs);
    }
  }

  lemma Decode2(c: int, cp: int)
    requires IsUint32(c) && 0x80 <= cp < 0x800
    ensures var bs := Encode(cp); var d1 := Decode(Decoder(Accept, c), bs[0]);
      Pending(d1) && Decode(d1, bs[1]) == Decoder(Accept, cp)
  {
    var bs := Encode(cp);
    var d1 := Decode(Decoder(Accept, c), bs[0]);
    assert d1 == Decoder(2, cp / 0x40);
  }

  lemma Decode3(c: int, cp: int)
    requires IsUint32(c) && IsScalar(cp) && 0x800 <= cp < 0x10000
    ensures var bs := Encode(cp); var d1 := Decode(Decoder(Accept, c), bs[0]);
      var d2 := Decode(d1, bs[1]);
      Pending(d1) && Pending(d2) && Decode(d2, bs[2]) == Decoder(Accept, cp)
  {
    var bs := Encode(cp);
    var d1 := Decode(Decoder(Accept, c), bs[0]);
    assert Pending(d1) && d1.codep == cp / 0x1000;
    var d2 := Decode(d1, bs[1]);
    assert cp / 0x1000 * 0x40 + cp / 0x40 % 0x40 == cp / 0x40;
    assert d2 == Decoder(2, cp / 0x40);
  }

  /** The two leading bytes of a four-byte sequence leave the decoder in state 3 with the top nine bits. */
  lemma Decode4Head(c: int, cp: int)
    requires IsUint32(c) && IsScalar(cp) && 0x10000 <= cp
    ensures var d1 := Decode(Decoder(Accept, c), 0xF0 + cp / 0x40000);
      Pending(d1) && Decode(d1, 0x80 + cp / 0x1000 % 0x40) == Decoder(3, cp / 0x1000)
  {
    var d1 := Decode(Decoder(Accept, c), 0xF0 + cp / 0x40000);
    assert Pending(d1) && d1.codep == cp / 0x40000;
    assert cp / 0x40000 * 0x40 + cp / 0x1000 % 0x40 == cp / 0x1000;
  }

  /**
   A continuation byte carrying six more bits moves state 3 to state 2 and
   state 2 to ACCEPT, shifting the bits in below the value so far.
   */
  lemma DecodeTail(s: int, hi: int, lo: int)
    requires (s == 2 || s == 3) && 0 <= hi < 0x400_0000 && 0 <= lo < 0x40
    ensures Decode(Decoder(s, hi), 0x80 + lo) == Decoder(if s == 3 then 2 else Accept, hi * 0x40 + lo)
  {
  }

  lemma Decode4(c: int, cp: int)
    requires IsUint32(c) && IsScalar(cp) && 0x10000 <= cp
    ensures var bs := Encode(cp); var d1 := Decode(Decoder(Accept, c), bs[0]);
      var d2 := Decode(d1, bs[1]); var d3 := Decode(d2, bs[2]);
      Pending(d1) && Pending(d2) && Pending(d3) && Decode(d3, bs[3]) == Decoder(Accept, cp)
  {
    Decode4Head(c, cp);
    DecodeTail(3, cp / 0x1000, cp / 0x40 % 0x40);
    assert cp / 0x1000 * 0x40 + cp / 0x40 % 0x40 == cp / 0x40;
    DecodeTail(2, cp / 0x40, cp % 0x40);
  }

  lemma RunOne(d: Decoder, b0: Byte)
    requires Valid(d)
    ensures Run(d, [b0]) == Decode(d, b0)
  {
    assert [b0][1..] == [];
  }

  lemma RunPrefixes3(d: Decoder, bs: seq<Byte>)
    requires Valid(d) && |bs| == 3
    ensures Run(d, bs[..1]) == Decode(d, bs[0])
    ensures Run(d, bs[..2]) == Decode(Decode(d, bs[0]), bs[1])
    ensures Run(d, bs) == Decode(Decode(Decode(d, bs[0]), bs[1]), bs[2])
  {
    RunOne(d, bs[0]);
    assert bs[..1] == [bs[0]];
    RunPair(d, bs[0], bs[1]);
    assert bs[..2] == [bs[0], bs[1]];
    var d1 := Decode(d, bs[0]);
    assert Run(d, bs) == Run(d1, bs[1..]);
    RunPair(d1, bs[1], bs[2]);
    assert bs[1..] == [bs[1], bs[2]];
  }

  lemma RunPrefixes4(d: Decoder, bs: seq<Byte>)
    requires Valid(d) && |bs| == 4
    ensures Run(d, bs[..1]) == Decode(d, bs[0])
    ensures Run(d, bs[..2]) == Decode(Decode(d, bs[0]), bs[1])
    ensures Run(d, bs[..3]) == Decode(Decode(Decode(d, bs[0]), bs[1]), bs[2])
    ensures Run(d, bs) == Decode(Decode(Decode(Decode(d, bs[0]), bs[1]), bs[2]), bs[3])
  {
    RunPrefixes3(d, bs[..3]);
    assert bs[..3][..1] == bs[..1] && bs[..3][..2] == bs[..2];
    var d1 := Decode(d, bs[0]);
    assert Run(d, bs) == Run(d1, bs[1..]);
    RunPrefixes3(d1, bs[1..]);
  }

  /**
   A NUL-free run of bytes during which the decoder stays pending and after
   which it accepts yields exactly one codepoint, the rebuilt value.
   */
  lemma {:induction false} ScanOneCharacter(d: Decoder, bs: seq<Byte>)
    requires Valid(d) && NoNul(bs) && |bs| >= 1
    requires forall k :: 1 <= k < |bs| ==> Pending(Run(d, bs[..k]))
    requires Run(d, bs).state == Accept
    ensures Scan(d, bs) == [Run(d, bs).codep]
    decreases |bs|
  {
    var d1 := Decode(d, bs[0]);
    assert Run(d, bs) == Run(d1, bs[1..]);
    if |bs| == 1 {
      assert Run(d1, bs[1..]) == d1;
    } else {
      assert bs[..1] == [bs[0]] && Run(d, bs[..1]) == Run(d1, []);
      forall k | 1 <= k < |bs| - 1
        ensures Pending(Run(d1, bs[1..][..k]))
      {
        assert bs[..k + 1][0] == bs[0] && bs[..k + 1][1..] == bs[1..][..k];
        assert Run(d, bs[..k + 1]) == Run(d1, bs[1..][..k]);
      }
      ScanOneCharacter(d1, bs[1..]);
    }
  }

  /** Decoding a scalar's encoding followed by more text. */
  lemma ScanEncodedHead(c: int, cp: int, rest: seq<Byte>)
    requires IsUint32(c) && IsScalar(cp) && cp != 0
    ensures Scan(Decoder(Accept, c), Encode(cp) + rest) == [cp] + Scan(Decoder(Accept, cp), rest)
  {
    var d := Decoder(Accept, c);
    DecodeEncoded(c, cp);
    ScanOneCharacter(d, Encode(cp));
    ScanAppend(d, Encode(cp), rest);
  }

  /** The UTF-8 encoding of a whole string of scalar values. */
  function EncodeAll(cps: seq<int>): (bs: seq<Byte>)
    requires forall k :: 0 <= k < |cps| ==> IsScalar(cps[k])
  {
    if |cps| == 0 then [] else Encode(cps[0]) + EncodeAll(cps[1..])
  }

  /**
   The round trip: the text loops recover exactly the scalar values whose
   encoding they are given (NUL excluded, since it ends a C string).
   */
  lemma {:induction false} DecodeEncodeAll(c: int, cps: seq<int>)
    requires IsUint32(c)
    requires forall k :: 0 <= k < |cps| ==> IsScalar(cps[k]) && cps[k] != 0
    ensures Scan(Decoder(Accept, c), EncodeAll(cps)) == cps
    decreases |cps|
  {
    if |cps| > 0 {
      ScanEncodedHead(c, cps[0], EncodeAll(cps[1..]));
      DecodeEncodeAll(cps[0], cps[1..]);
    }
  }

  lemma RoundTrip(cps: seq<int>)
    requires forall k :: 0 <= k < |cps| ==> IsScalar(cps[k]) && cps[k] != 0
    ensures Codepoints(EncodeAll(cps)) == cps
  {
    DecodeEncodeAll(0, cps);
  }

  // ---------------------------------------------------------------------------
  // The converse: the automaton accepts nothing but those encodings.

  /**
   From ACCEPT, a run of bytes that keeps the decoder pending until its last
   byte, which returns it to ACCEPT, is the RFC 3629 encoding of the value the
   decoder rebuilt, and that value is a scalar value. Together with
   `DecodeEncoded` this says the automaton accepts exactly the well-formed
   sequences of section 4 of RFC 3629.
   */
  lemma AcceptedIsEncoding(c: int, bs: seq<Byte>)
    requires IsUint32(c) && |bs| >= 1
    requires forall k :: 1 <= k < |bs| ==> Pending(Run(Decoder(Accept, c), bs[..k]))
    requires Run(Decoder(Accept, c), bs).state == Accept
    ensures IsScalar(Run(Decoder(Accept, c), bs).codep)
    ensures Encode(Run(Decoder(Accept, c), bs).codep) == bs
  {
    NotFourPending(c, bs);
    if |bs| == 1 {
      AcceptedOfLength1(c, bs);
    } else if |bs| == 2 {
      AcceptedOfLength2(c, bs);
    } else if |bs| == 3 {
      AcceptedOfLength3(c, bs);
    } else if |bs| == 4 {
      AcceptedOfLength4(c, bs);
    } else {
      assert false;
    }
  }

  lemma AcceptedOfLength1(c: int, bs: seq<Byte>)
    requires IsUint32(c) && |bs| == 1
    requires Run(Decoder(Accept, c), bs).state == Accept
    ensures IsScalar(Run(Decoder(Accept, c), bs).codep)
    ensures Encode(Run(Decoder(Accept, c), bs).codep) == bs
  {
    RunOne(Decoder(Accept, c), bs[0]);
    assert bs == [bs[0]];
  }

  lemma AcceptedOfLength2(c: int, bs: seq<Byte>)
    requires IsUint32(c) && |bs| == 2
    requires forall k :: 1 <= k < |bs| ==> Pending(Run(Decoder(Accept, c), bs[..k]))
    requires Run(Decoder(Accept, c), bs).state == Accept
    ensures IsScalar(Run(Decoder(Accept, c), bs).codep)
    ensures Encode(Run(Decoder(Accept, c), bs).codep) == bs
  {
    var d0 := Decoder(Accept, c);
    assert Pending(Run(d0, bs[..1]));
    RunPair(d0, bs[0], bs[1]);
    RunOne(d0, bs[0]);
    assert bs[..1] == [bs[0]] && bs == [bs[0], bs[1]];
    Accepted2(c, bs[0], bs[1]);
  }

  lemma AcceptedOfLength3(c: int, bs: seq<Byte>)
    requires IsUint32(c) && |bs| == 3
    requires forall k :: 1 <= k < |bs| ==> Pending(Run(Decoder(Accept, c), bs[..k]))
    requires Run(Decoder(Accept, c), bs).state == Accept
    ensures IsScalar(Run(Decoder(Accept, c), bs).codep)
    ensures Encode(Run(Decoder(Accept, c), bs).codep) == bs
  {
    var d0 := Decoder(Accept, c);
    assert Pending(Run(d0, bs[..1])) && Pending(Run(d0, bs[..2]));
    RunPrefixes3(d0, bs);
    Accepted3(c, bs[0], bs[1], bs[2]);
    assert bs == [bs[0], bs[1], bs[2]];
  }

  lemma AcceptedOfLength4(c: int, bs: seq<Byte>)
    requires IsUint32(c) && |bs| == 4
    requires forall k :: 1 <= k < |bs| ==> Pending(Run(Decoder(Accept, c), bs[..k]))
    requires Run(Decoder(Accept, c), bs).state == Accept
    ensures IsScalar(Run(Decoder(Accept, c), bs).codep)
    ensures Encode(Run(Decoder(Accept, c), bs).codep) == bs
  {
    var d0 := Decoder(Accept, c);
    assert Pending(Run(d0, bs[..1])) && Pending(Run(d0, bs[..2])) && Pending(Run(d0, bs[..3]));
    RunPrefixes4(d0, bs);
    Accepted4(c, bs[0], bs[1], bs[2], bs[3]);
    assert bs == [bs[0], bs[1], bs[2], bs[3]];
  }

  /** No four bytes keep the decoder pending after each of them. */
  lemma NotFourPending(c: int, bs: seq<Byte>)
    ensures IsUint32(c) && |bs| >= 4 ==>
      !(Pending(Run(Decoder(Accept, c), bs[..1])) && Pending(Run(Decoder(Accept, c), bs[..2]))
        && Pending(Run(Decoder(Accept, c), bs[..3])) && Pending(Run(Decoder(Accept, c), bs[..4])))
  {
    if IsUint32(c) && |bs| >= 4 {
      var p := bs[..4];
      RunPrefixes4(Decoder(Accept, c), p);
      assert p[..1] == bs[..1] && p[..2] == bs[..2] && p[..3] == bs[..3];
      AtMostThreePending(c, bs[0], bs[1], bs[2], bs[3]);
    }
  }

  /** The pending states 2..8 count down: no four bytes in a row keep the decoder pending. */
  lemma AtMostThreePending(c: int, b0: Byte, b1: Byte, b2: Byte, b3: Byte)
    requires IsUint32(c)
    ensures var d1 := Decode(Decoder(Accept, c), b0); var d2 := Decode(d1, b1);
      var d3 := Decode(d2, b2); var d4 := Decode(d3, b3);
      !(Pending(d1) && Pending(d2) && Pending(d3) && Pending(d4))
  {
  }

  lemma Accepted2(c: int, b0: Byte, b1: Byte)
    requires IsUint32(c)
    requires Pending(Decode(Decoder(Accept, c), b0))
    requires Decode(Decode(Decoder(Accept, c), b0), b1).state == Accept
    ensures var v := Decode(Decode(Decoder(Accept, c), b0), b1).codep;
      IsScalar(v) && Encode(v) == [b0, b1]
  {
    var d1 := Decode(Decoder(Accept, c), b0);
    assert 0xC2 <= b0 < 0xE0 && 0x80 <= b1 < 0xC0;
    assert d1.codep == b0 - 0xC0;
  }

  lemma Accepted3(c: int, b0: Byte, b1: Byte, b2: Byte)
    requires IsUint32(c)
    requires Pending(Decode(Decoder(Accept, c), b0))
    requires Pending(Decode(Decode(Decoder(Accept, c), b0), b1))
    requires Decode(Decode(Decode(Decoder(Accept, c), b0), b1), b2).state == Accept
    ensures var v := Decode(Decode(Decode(Decoder(Accept, c), b0), b1), b2).codep;
      IsScalar(v) && Encode(v) == [b0, b1, b2]
  {
    var d1 := Decode(Decoder(Accept, c), b0);
    var d2 := Decode(d1, b1);
    var v := Decode(d2, b2).codep;
    LeadByte(c, b0);
    ContinuationByte(d1, b1);
    ContinuationByte(d2, b2);
    assert 3 <= d1.state <= 5;
    assert v == ((b0 - 0xE0) * 0x40 + (b1 - 0x80)) * 0x40 + (b2 - 0x80);
    Digits3(b0 - 0xE0, b1 - 0x80, b2 - 0x80);
    assert IsScalar(v) && 0x800 <= v < 0x10000;
    EncodeOf3(v, b0, b1, b2);
  }

  lemma Accepted4(c: int, b0: Byte, b1: Byte, b2: Byte, b3: Byte)
    requires IsUint32(c)
    requires Pending(Decode(Decoder(Accept, c), b0))
    requires Pending(Decode(Decode(Decoder(Accept, c), b0), b1))
    requires Pending(Decode(Decode(Decode(Decoder(Accept, c), b0), b1), b2))
    requires Decode(Decode(Decode(Decode(Decoder(Accept, c), b0), b1), b2), b3).state == Accept
    ensures var v := Decode(Decode(Decode(Decode(Decoder(Accept, c), b0), b1), b2), b3).codep;
      IsScalar(v) && Encode(v) == [b0, b1, b2, b3]
  {
    var d1 := Decode(Decoder(Accept, c), b0);
    var d2 := Decode(d1, b1);
    var d3 := Decode(d2, b2);
    var v := Decode(d3, b3).codep;
    LeadByte(c, b0);
    ContinuationByte(d1, b1);
    ContinuationByte(d2, b2);
    ContinuationByte(d3, b3);
    assert 6 <= d1.state <= 8;
    assert v == (((b0 - 0xF0) * 0x40 + (b1 - 0x80)) * 0x40 + (b2 - 0x80)) * 0x40 + (b3 - 0x80);
    Digits4(b0 - 0xF0, b1 - 0x80, b2 - 0x80, b3 - 0x80);
    assert IsScalar(v) && 0x10000 <= v;
    EncodeOf4(v, b0, b1, b2, b3);
  }

  /** What a lead byte from ACCEPT leaves in the decoder, by sequence length. */
  lemma LeadByte(c: int, b0: Byte)
    requires IsUint32(c) && Pending(Decode(Decoder(Accept, c), b0))
    ensures var d1 := Decode(Decoder(Accept, c), b0);
      && (d1.state == 2 ==> 0xC2 <= b0 < 0xE0 && d1.codep == b0 - 0xC0)
      && (3 <= d1.state <= 5 ==>
            0xE0 <= b0 < 0xF0 && d1.codep == b0 - 0xE0 && (d1.state == 4 <==> b0 == 0xE0) && (d1.state == 5 <==> b0 == 0xED))
      && (6 <= d1.state <= 8 ==>
            0xF0 <= b0 <= 0xF4 && d1.codep == b0 - 0xF0 && (d1.state == 6 <==> b0 == 0xF0) && (d1.state == 8 <==> b0 == 0xF4))
  {
  }

  /**
   A byte that a pending decoder does not reject is a continuation byte: its six
   payload bits are appended and one fewer byte is due. States 4, 5, 6 and 8
   narrow the range of the byte after the lead.
   */
  lemma ContinuationByte(d: Decoder, b: Byte)
    requires Valid(d) && Pending(d) && d.codep < 0x400_0000 && Decode(d, b).state != Reject
    ensures 0x80 <= b < 0xC0 && Decode(d, b).codep == d.codep * 0x40 + (b - 0x80)
    ensures d.state == 2 ==> Decode(d, b).state == Accept
    ensures 3 <= d.state <= 5 ==> Decode(d, b).state == 2
    ensures 6 <= d.state <= 8 ==> Decode(d, b).state == 3
    ensures d.state == 4 ==> b >= 0xA0
    ensures d.state == 5 ==> b < 0xA0
    ensures d.state == 6 ==> b >= 0x90
    ensures d.state == 8 ==> b < 0x90
  {
  }

  /** A three-byte value whose 6-bit digits are those of b0, b1, b2 encodes as those bytes. */
  lemma EncodeOf3(v: int, b0: int, b1: int, b2: int)
    requires IsScalar(v) && 0x800 <= v < 0x10000
    requires v / 0x1000 == b0 - 0xE0 && v / 0x40 % 0x40 == b1 - 0x80 && v % 0x40 == b2 - 0x80
    ensures Encode(v) == [b0, b1, b2]
  {
  }

  /** A four-byte value whose digits are those of b0..b3 encodes as those bytes. */
  lemma EncodeOf4(v: int, b0: int, b1: int, b2: int, b3: int)
    requires IsScalar(v) && 0x10000 <= v
    requires v / 0x40000 == b0 - 0xF0 && v / 0x1000 % 0x40 == b1 - 0x80
    requires v / 0x40 % 0x40 == b2 - 0x80 && v % 0x40 == b3 - 0x80
    ensures Encode(v) == [b0, b1, b2, b3]
  {
  }

  /** A value built from 6-bit digits gives those digits back. */
  lemma Digits3(x0: int, x1: int, x2: int)
    requires 0 <= x0 < 16 && 0 <= x1 < 64 && 0 <= x2 < 64
    ensures var v := (x0 * 0x40 + x1) * 0x40 + x2;
      v / 0x1000 == x0 && v / 0x40 % 0x40 == x1 && v % 0x40 == x2
  {
  }

  lemma Digits4(x0: int, x1: int, x2: int, x3: int)
    requires 0 <= x0 < 8 && 0 <= x1 < 64 && 0 <= x2 < 64 && 0 <= x3 < 64
    ensures var v := ((x0 * 0x40 + x1) * 0x40 + x2) * 0x40 + x3;
      v / 0x40000 == x0 && v / 0x1000 % 0x40 == x1 && v / 0x40 % 0x40 == x2 && v % 0x40 == x3
  {
  }
}
