/**
 The buffer a mutable item's signature covers: optional salt, sequence number and value with their
 framing.  A reader recovers the three parts from any such buffer, so two items never share one.
 */
module SignableData {
  import opened Wrappers

  type Bytes = seq<Byte>
  type I64 = i: int | -0x8000_0000_0000_0000 <= i < 0x8000_0000_0000_0000

  datatype Parts = Parts(salt: Option<Bytes>, sequence: I64, value: Bytes)

  // Framing, in ASCII: "4:salt", ":", "3:seqi", "e", "1:v".
  const SALT: Bytes := [0x34, 0x3a, 0x73, 0x61, 0x6c, 0x74]
  const COLON: Byte := 0x3a
  const SEQ: Bytes := [0x33, 0x3a, 0x73, 0x65, 0x71, 0x69]
  const END: Byte := 0x65
  const VALUE: Bytes := [0x31, 0x3a, 0x76]
  const MINUS: Byte := 0x2d

  // -- Decimal numbers -------------------------------------------------------------------------

  function Digit(d: nat): Byte
    requires d < 10
  {
    0x30 + d
  }

  predicate IsDigit(b: Byte) {
    0x30 <= b <= 0x39
  }

  /** Decimal digits, most significant first and without leading zeros. */
  function Decimal(n: nat): Bytes {
    if n < 10 then [Digit(n)] else Decimal(n / 10) + [Digit(n % 10)]
  }

  function Signed(i: int): Bytes {
    if i < 0 then [MINUS] + Decimal(-i) else Decimal(i)
  }

  /** The digits `b` starts with. */
  function Digits(b: Bytes): (n: nat)
    ensures n <= |b|
  {
    if b != [] && IsDigit(b[0]) then 1 + Digits(b[1..]) else 0
  }

  function Number(b: Bytes): nat {
    if b == [] then 0
    else
      var last: nat := b[|b| - 1];
      Number(b[..|b| - 1]) * 10 + if last >= 0x30 then last - 0x30 else 0
  }

  lemma {:induction false} DecimalReads(n: nat)
    ensures Number(Decimal(n)) == n
    ensures Decimal(n) != [] && forall i :: 0 <= i < |Decimal(n)| ==> IsDigit(Decimal(n)[i])
  {
    if n >= 10 {
      DecimalReads(n / 10);
    } else {
      assert Number([]) == 0;
      assert [Digit(n)][..0] == [];
    }
  }

  lemma {:induction false} DigitsStop(a: Bytes, b: Bytes)
    requires forall i :: 0 <= i < |a| ==> IsDigit(a[i])
    requires b == [] || !IsDigit(b[0])
    ensures Digits(a + b) == |a|
  {
    if a == [] {
      assert a + b == b;
    } else {
      assert (a + b)[1..] == a[1..] + b;
      DigitsStop(a[1..], b);
    }
  }

  // -- Writing ---------------------------------------------------------------------------------

  function SaltPart(salt: Option<Bytes>): Bytes {
    match salt
    case Some(s) => SALT + Decimal(|s|) + [COLON] + s
    case None => []
  }

  function SeqPart(sequence: int): Bytes {
    SEQ + Signed(sequence) + [END]
  }

  function Encode(p: Parts): Bytes {
    SaltPart(p.salt) + (SeqPart(p.sequence) + (VALUE + p.value))
  }

  /** Builds the buffer by appending piece after piece. */
  method Build(salt: Option<Bytes>, sequence: I64, value: Bytes) returns (buf: Bytes)
    ensures buf == Encode(Parts(salt, sequence, value))
  {
    buf := [];
    if salt.Some? {
      buf := buf + (SALT + Decimal(|salt.value|) + [COLON]);
      buf := buf + salt.value;
    }
    assert buf == SaltPart(salt);
    buf := buf + SeqPart(sequence);
    buf := buf + VALUE;
    buf := buf + value;
  }

  /** One more digit goes to the end, in ASCII. */
  lemma DecimalIsPositional(n: nat, d: nat)
    requires d < 10
    ensures Decimal(d) == [48 + d]
    ensures n > 0 ==> Decimal(10 * n + d) == Decimal(n) + [48 + d]
  {
  }

  /** Two buffers in full: "4:salt1:s3:seqi1e1:v1:x" and, without a salt, "3:seqi-20e1:v1:x". */
  lemma KnownBuffers()
    ensures Encode(Parts(Some([0x73]), 1, [0x31, 0x3a, 0x78])) ==
      [0x34, 0x3a, 0x73, 0x61, 0x6c, 0x74, 0x31, 0x3a, 0x73, 0x33, 0x3a, 0x73, 0x65, 0x71, 0x69, 0x31, 0x65,
       0x31, 0x3a, 0x76, 0x31, 0x3a, 0x78]
    ensures Encode(Parts(None, -20, [0x31, 0x3a, 0x78])) ==
      [0x33, 0x3a, 0x73, 0x65, 0x71, 0x69, 0x2d, 0x32, 0x30, 0x65, 0x31, 0x3a, 0x76, 0x31, 0x3a, 0x78]
  {
    DecimalIsPositional(2, 0);
    assert Decimal(1) == [0x31] && Decimal(20) == [0x32, 0x30];
  }

  // -- Reading ---------------------------------------------------------------------------------

  /** What follows `p` in `b`. */
  function Strip(b: Bytes, p: Bytes): Option<Bytes> {
    if p <= b then Some(b[|p|..]) else None
  }

  /** A number without leading zeros, and what follows it. */
  function ReadNumber(b: Bytes): Option<(nat, Bytes)> {
    var d := Digits(b);
    if Decimal(Number(b[..d])) == b[..d] then Some((Number(b[..d]), b[d..])) else None
  }

  function ReadSigned(b: Bytes): Option<(int, Bytes)> {
    if b != [] && b[0] == MINUS then
      (match ReadNumber(b[1..])
       case Some((n, rest)) =>
         var i: int := n;
         if n == 0 then None else Some((-i, rest))
       case None => None)
    else
      match ReadNumber(b)
      case Some((n, rest)) => Some((n, rest))
      case None => None
  }

  function ReadSalt(b: Bytes): Option<(Option<Bytes>, Bytes)> {
    match Strip(b, SALT)
    case None => Some((None, b))
    case Some(c) =>
      match ReadNumber(c)
      case None => None
      case Some((n, d)) =>
        if d == [] || d[0] != COLON || |d| < 1 + n then None
        else Some((Some(d[1..1 + n]), d[1 + n..]))
  }

  function ReadSeq(b: Bytes): Option<(I64, Bytes)> {
    match Strip(b, SEQ)
    case None => None
    case Some(c) =>
      match ReadSigned(c)
      case None => None
      case Some((i, d)) =>
        if d == [] || d[0] != END || !(-0x8000_0000_0000_0000 <= i < 0x8000_0000_0000_0000) then None
        else Some((i, d[1..]))
  }

  function Decode(b: Bytes): Option<Parts> {
    match ReadSalt(b)
    case None => None
    case Some((salt, c)) =>
      match ReadSeq(c)
      case None => None
      case Some((sequence, d)) =>
        match Strip(d, VALUE)
        case None => None
        case Some(value) => Some(Parts(salt, sequence, value))
  }

  // -- Round trips -----------------------------------------------------------------------------

  lemma NumberReads(n: nat, rest: Bytes)
    requires rest == [] || !IsDigit(rest[0])
    ensures ReadNumber(Decimal(n) + rest) == Some((n, rest))
  {
    DecimalReads(n);
    DigitsStop(Decimal(n), rest);
    var b := Decimal(n) + rest;
    assert b[..|Decimal(n)|] == Decimal(n) && b[|Decimal(n)|..] == rest;
  }

  lemma MinusReads(digits: Bytes, n: int, rest: Bytes)
    requires n > 0 && ReadNumber(digits + rest) == Some((n, rest))
    ensures ReadSigned([MINUS] + digits + rest) == Some((-n, rest))
  {
    assert ([MINUS] + digits + rest)[1..] == digits + rest;
  }

  lemma PlusReads(digits: Bytes, n: nat, rest: Bytes)
    requires ReadNumber(digits + rest) == Some((n, rest)) && digits != [] && IsDigit(digits[0])
    ensures ReadSigned(digits + rest) == Some((n, rest))
  {
    assert (digits + rest)[0] == digits[0] != MINUS;
  }

  lemma SignedReads(i: int, rest: Bytes)
    requires rest == [] || !IsDigit(rest[0])
    ensures ReadSigned(Signed(i) + rest) == Some((i, rest))
  {
    var n: nat := if i < 0 then -i else i;
    NumberReads(n, rest);
    if i < 0 {
      MinusReads(Decimal(n), n, rest);
    } else {
      DecimalReads(n);
      PlusReads(Decimal(n), n, rest);
    }
  }

  lemma StripReads(p: Bytes, rest: Bytes)
    ensures Strip(p + rest, p) == Some(rest)
  {
    assert (p + rest)[|p|..] == rest;
  }

  /** Framing bytes inside the salt do not matter: its length says where it ends. */
  lemma SaltReads(salt: Option<Bytes>, rest: Bytes)
    requires SEQ <= rest
    ensures ReadSalt(SaltPart(salt) + rest) == Some((salt, rest))
  {
    match salt
    case None =>
      assert SaltPart(salt) + rest == rest;
      assert !(SALT <= rest) by {
        assert rest[0] == SEQ[0] != SALT[0];
      }
    case Some(s) =>
      var tail := [COLON] + s + rest;
      assert SaltPart(salt) + rest == SALT + (Decimal(|s|) + tail);
      StripReads(SALT, Decimal(|s|) + tail);
      NumberReads(|s|, tail);
      assert tail[1..1 + |s|] == s && tail[1 + |s|..] == rest;
  }

  lemma SeqReads(sequence: I64, rest: Bytes)
    ensures ReadSeq(SeqPart(sequence) + rest) == Some((sequence, rest))
  {
    var tail := [END] + rest;
    assert SeqPart(sequence) + rest == SEQ + (Signed(sequence) + tail);
    StripReads(SEQ, Signed(sequence) + tail);
    SignedReads(sequence, tail);
    assert tail[1..] == rest;
  }

  /** Every salt, sequence number and value reads back exactly. */
  lemma DecodeEncode(p: Parts)
    ensures Decode(Encode(p)) == Some(p)
  {
    var c := SeqPart(p.sequence) + (VALUE + p.value);
    assert SEQ <= c;
    SaltReads(p.salt, c);
    SeqReads(p.sequence, VALUE + p.value);
    StripReads(VALUE, p.value);
  }

  /** The reader accepts nothing but what the writer produces. */
  lemma EncodeDecode(b: Bytes)
    ensures Decode(b).Some? ==> Encode(Decode(b).value) == b
  {
    match Decode(b)
    case None =>
    case Some(p) =>
      var (salt, c) := ReadSalt(b).value;
      var (sequence, d) := ReadSeq(c).value;
      SaltWrites(b);
      SeqWrites(c);
      assert d == VALUE + p.value;
  }

  lemma NumberWrites(b: Bytes)
    ensures match ReadNumber(b) case Some((n, rest)) => b == Decimal(n) + rest case None => true
  {
    assert b == b[..Digits(b)] + b[Digits(b)..];
  }

  lemma SaltWrites(b: Bytes)
    ensures match ReadSalt(b) case Some((salt, rest)) => b == SaltPart(salt) + rest case None => true
  {
    match Strip(b, SALT)
    case None => assert [] + b == b;
    case Some(c) =>
      assert b == SALT + c;
      NumberWrites(c);
      match ReadNumber(c)
      case None =>
      case Some((n, d)) =>
        if d != [] && d[0] == COLON && |d| >= 1 + n {
          Framed(SALT, Decimal(n), COLON, d, n);
        }
  }

  lemma Delimited(header: Bytes, digits: Bytes, delimiter: Byte, d: Bytes)
    requires d != [] && d[0] == delimiter
    ensures header + (digits + d) == header + digits + [delimiter] + d[1..]
  {
    assert d == [delimiter] + d[1..];
  }

  /** A header, digits and a delimiter in front of `n` bytes. */
  lemma Framed(header: Bytes, digits: Bytes, delimiter: Byte, d: Bytes, n: nat)
    requires |d| >= 1 + n && d[0] == delimiter
    ensures header + (digits + d) == header + digits + [delimiter] + d[1..1 + n] + d[1 + n..]
  {
    assert d == [delimiter] + d[1..1 + n] + d[1 + n..];
  }

  lemma SeqWrites(b: Bytes)
    ensures match ReadSeq(b) case Some((i, rest)) => b == SeqPart(i) + rest case None => true
  {
    match Strip(b, SEQ)
    case None =>
    case Some(c) =>
      assert b == SEQ + c;
      SignedWrites(c);
      match ReadSigned(c)
      case None =>
      case Some((i, d)) =>
        if d != [] && d[0] == END {
          Delimited(SEQ, Signed(i), END, d);
        }
  }

  lemma SignedWrites(b: Bytes)
    ensures match ReadSigned(b) case Some((i, rest)) => b == Signed(i) + rest case None => true
  {
    if b != [] && b[0] == MINUS {
      assert b == [MINUS] + b[1..];
      NumberWrites(b[1..]);
    } else {
      NumberWrites(b);
    }
  }

  /** Two items sign the same buffer only if salt, sequence number and value all agree. */
  lemma EncodeInjective(p: Parts, q: Parts)
    ensures Encode(p) == Encode(q) <==> p == q
  {
    DecodeEncode(p);
    DecodeEncode(q);
  }
}
