/** Query parameters of components/rest_controller/rest_controller_handlers.c. */
module UrlDecode {
  import opened Bytes

  const PERCENT: byte := 0x25
  const PLUS: byte := 0x2B
  const SPACE: byte := 0x20
  const AMPERSAND: byte := 0x26
  const EQUALS: byte := 0x3D
  const MAX_VALUE := 128

  datatype Option<+T> = None | Some(value: T)

  datatype Err = Ok | InvalidArg | NotFound

  // ----- strtol(code, NULL, 16) on two characters -----

  function HexValue(c: byte): (v: Option<nat>)
    ensures v.Some? ==> v.value < 16
  {
    if 0x30 <= c <= 0x39 then Some((c - 0x30) as nat)
    else if 0x41 <= c <= 0x46 then Some((c - 0x41) as nat + 10)
    else if 0x61 <= c <= 0x66 then Some((c - 0x61) as nat + 10)
    else None
  }

  predicate IsBlank(c: byte)
  {
    c == SPACE || 0x09 <= c <= 0x0D
  }

  /** One hexadecimal digit, or 0 when there is none. */
  function OneDigit(c: byte): nat
  {
    match HexValue(c) case Some(v) => v case None => 0
  }

  /** Leading blanks and a sign are skipped, and reading stops at the first other character. */
  function Strtol16(a: byte, b: byte): int
  {
    match HexValue(a)
    case Some(h) => (match HexValue(b) case Some(l) => 16 * h + l case None => h)
    case None =>
      if IsBlank(a) || a == PLUS then OneDigit(b)
      else if a == 0x2D then 0 - (OneDigit(b) as int)
      else 0
  }

  /** The conversion to unsigned char. */
  function ToByte(v: int): byte
  {
    (v % 256) as byte
  }

  // ----- decoding -----

  /** The bytes behind a string and its terminating zero, which the program does not own. */
  type Beyond = nat -> byte

  /** The byte at address i of a string. */
  function At(s: seq<byte>, beyond: Beyond, i: nat): byte
  {
    if i < |s| then s[i] else if i == |s| then 0 else beyond(i - |s| - 1)
  }

  /** The byte written for the text at address p. */
  function ByteFrom(s: seq<byte>, beyond: Beyond, p: nat): byte
  {
    var c := At(s, beyond, p);
    if c == PERCENT then ToByte(Strtol16(At(s, beyond, p + 1), At(s, beyond, p + 2)))
    else if c == PLUS then SPACE
    else c
  }

  /** And the address of what follows. */
  function NextFrom(s: seq<byte>, beyond: Beyond, p: nat): (q: nat)
    ensures q == if At(s, beyond, p) == PERCENT then p + 3 else p + 1
  {
    if At(s, beyond, p) == PERCENT then p + 3 else p + 1
  }

  /** What url_decode_copyn writes for the text from address p on, up to `end`. */
  function DecodeFrom(s: seq<byte>, beyond: Beyond, p: nat, end: nat): (r: seq<byte>)
    ensures |r| <= if p <= end then end - p else 0
    decreases if p <= end then end - p else 0
  {
    if At(s, beyond, p) == 0 || p >= end then []
    else [ByteFrom(s, beyond, p)] + DecodeFrom(s, beyond, NextFrom(s, beyond, p), end)
  }

  /** The C string at the start of a buffer. */
  function CString(s: seq<byte>): (r: seq<byte>)
    ensures |r| <= |s|
  {
    if s == [] || s[0] == 0 then [] else [s[0]] + CString(s[1..])
  }

  /** The text is at address `start` of the string s. */
  method UrlDecodeCopyN(dest: array<byte>, s: seq<byte>, beyond: Beyond, start: nat, size: nat)
    requires dest.Length > |DecodeFrom(s, beyond, start, start + size)|
    modifies dest
    ensures var r := DecodeFrom(s, beyond, start, start + size);
            && dest[..|r|] == r && dest[|r|] == 0
            && forall i :: |r| < i < dest.Length ==> dest[i] == old(dest[i])
  {
    var p, end, d := start, start + size, 0;
    ghost var r := DecodeFrom(s, beyond, start, end);
    while At(s, beyond, p) != 0
      invariant 0 <= d < dest.Length
      invariant dest[..d] + DecodeFrom(s, beyond, p, end) == r
      invariant forall i :: d <= i < dest.Length ==> dest[i] == old(dest[i])
      decreases if p <= end then end - p else 0
    {
      if p >= end {
        break;
      }
      ghost var before := dest[..d];
      StepDecode(s, beyond, p, end, before);
      var c, next := DecodeOne(s, beyond, p);
      dest[d] := c;
      p, d := next, d + 1;
      assert dest[..d] == before + [c];
    }
    assert dest[..d] == r;
    dest[d] := 0;
  }

  /** The body of the loop. */
  method DecodeOne(s: seq<byte>, beyond: Beyond, p: nat) returns (c: byte, next: nat)
    ensures c == ByteFrom(s, beyond, p) && next == NextFrom(s, beyond, p)
  {
    c := At(s, beyond, p);
    if c == PERCENT {
      c := ToByte(Strtol16(At(s, beyond, p + 1), At(s, beyond, p + 2)));
      next := p + 3;
    } else if c == PLUS {
      c := SPACE;
      next := p + 1;
    } else {
      next := p + 1;
    }
  }

  lemma StepDecode(s: seq<byte>, beyond: Beyond, p: nat, end: nat, done: seq<byte>)
    requires At(s, beyond, p) != 0 && p < end
    ensures done + DecodeFrom(s, beyond, p, end)
         == done + [ByteFrom(s, beyond, p)] + DecodeFrom(s, beyond, NextFrom(s, beyond, p), end)
  {
    var rest := DecodeFrom(s, beyond, NextFrom(s, beyond, p), end);
    assert DecodeFrom(s, beyond, p, end) == [ByteFrom(s, beyond, p)] + rest;
  }

  // ----- reading past the terminating zero -----

  /** Decoding reads an address behind the terminating zero. */
  predicate Overreads(s: seq<byte>, beyond: Beyond, p: nat, end: nat)
    decreases if p <= end then end - p else 0
  {
    p > |s| || (At(s, beyond, p) != 0 && p < end &&
      if At(s, beyond, p) == PERCENT then p + 2 > |s| || Overreads(s, beyond, p + 3, end)
      else Overreads(s, beyond, p + 1, end))
  }

  /** Whatever it reads there does not change what is written, as long as the text ends inside the string. */
  lemma {:induction false} BeyondDoesNotMatter(s: seq<byte>, b: Beyond, c: Beyond, p: nat, end: nat)
    requires end <= |s|
    ensures DecodeFrom(s, b, p, end) == DecodeFrom(s, c, p, end)
    decreases if p <= end then end - p else 0
  {
    if p < end && s[p] != 0 {
      BeyondDoesNotMatter(s, b, c, if s[p] == PERCENT then p + 3 else p + 1, end);
    }
  }

  /** What is written for the text from p to `end`, whatever lies behind the string. */
  function Decoded(s: seq<byte>, p: nat, end: nat): seq<byte>
  {
    DecodeFrom(s, NothingBeyond, p, end)
  }

  function NothingBeyond(i: nat): byte
  {
    0
  }

  /** How the decoder cuts a text: '%' takes the two characters behind it, whatever they are. */
  datatype Piece = One(b: byte) | Three(b: byte, c: byte)

  predicate PieceOk(x: Piece)
  {
    match x
    case One(b) => b != 0 && b != PERCENT
    case Three(b, c) => b != 0 && c != 0
  }

  function PieceText(x: Piece): (t: seq<byte>)
    ensures 1 <= |t| <= 3
  {
    match x case One(b) => [b] case Three(b, c) => [PERCENT, b, c]
  }

  function PiecesText(xs: seq<Piece>): seq<byte>
  {
    if xs == [] then [] else PieceText(xs[0]) + PiecesText(xs[1..])
  }

  /** Behind some pieces the text ends with a '%' and fewer than two characters; the '%' is among the first k. */
  ghost predicate EndsCut(text: seq<byte>, k: nat, xs: seq<Piece>)
  {
    && (forall i :: 0 <= i < |xs| ==> PieceOk(xs[i]))
    && PiecesText(xs) <= text && |PiecesText(xs)| < k
    && 1 <= |text| - |PiecesText(xs)| <= 2 && text[|PiecesText(xs)|] == PERCENT
  }

  ghost predicate EscapeCut(text: seq<byte>, k: nat)
  {
    exists xs: seq<Piece> :: EndsCut(text, k, xs)
  }

  /** The first piece of a text and what is left of it. */
  lemma FirstPiece(text: seq<byte>, k: nat, x: Piece, xs: seq<Piece>)
    requires PieceOk(x) && PieceText(x) <= text
    ensures var n := |PieceText(x)|;
            EndsCut(text, k, [x] + xs) <==> n <= k && EndsCut(text[n..], k - n, xs)
  {
    var n, rest := |PieceText(x)|, PiecesText(xs);
    assert ([x] + xs)[1..] == xs;
    assert text == PieceText(x) + text[n..];
    assert PieceText(x) + rest <= text <==> rest <= text[n..];
    assert forall i :: 0 <= i < |xs| ==> ([x] + xs)[i + 1] == xs[i];
  }

  /** The piece with which the text from p on starts, if it is complete. */
  function PieceAt(s: seq<byte>, p: nat): (x: Piece)
    requires p < |s| && (s[p] == PERCENT ==> p + 2 < |s|)
    ensures |PieceText(x)| == if s[p] == PERCENT then 3 else 1
    ensures PieceText(x) <= s[p..]
  {
    if s[p] == PERCENT then Three(s[p + 1], s[p + 2]) else One(s[p])
  }

  lemma {:induction false} OverreadIsCut(s: seq<byte>, beyond: Beyond, p: nat, end: nat) returns (xs: seq<Piece>)
    requires 0 !in s && p <= |s| && end <= |s| && Overreads(s, beyond, p, end)
    ensures EndsCut(s[p..], end - p, xs)
    decreases end - p
  {
    if s[p] == PERCENT && p + 2 >= |s| {
      xs := [];
    } else {
      var x := PieceAt(s, p);
      var n := |PieceText(x)|;
      var rest := OverreadIsCut(s, beyond, p + n, end);
      xs := [x] + rest;
      assert s[p..][n..] == s[p + n..];
      FirstPiece(s[p..], end - p, x, rest);
    }
  }

  lemma {:induction false} CutIsOverread(s: seq<byte>, beyond: Beyond, p: nat, end: nat, xs: seq<Piece>)
    requires 0 !in s && p <= end <= |s| && EndsCut(s[p..], end - p, xs)
    ensures Overreads(s, beyond, p, end)
    decreases |xs|
  {
    if xs != [] {
      var n := |PieceText(xs[0])|;
      assert PieceText(xs[0]) <= s[p..] && s[p] == PieceText(xs[0])[0];
      assert xs == [xs[0]] + xs[1..];
      FirstPiece(s[p..], end - p, xs[0], xs[1..]);
      assert s[p..][n..] == s[p + n..];
      CutIsOverread(s, beyond, p + n, end, xs[1..]);
    }
  }

  /** The decoder reads past the terminating zero exactly when the string ends in such a cut escape. */
  lemma OverreadsIff(s: seq<byte>, beyond: Beyond, p: nat, end: nat)
    requires 0 !in s && p <= end <= |s|
    ensures Overreads(s, beyond, p, end) <==> EscapeCut(s[p..], end - p)
  {
    if Overreads(s, beyond, p, end) {
      var xs := OverreadIsCut(s, beyond, p, end);
    }
    if EscapeCut(s[p..], end - p) {
      var xs: seq<Piece> :| EndsCut(s[p..], end - p, xs);
      CutIsOverread(s, beyond, p, end, xs);
    }
  }

  // ----- encodings -----

  /** One way to write a byte: itself, '+' for a blank, or '%' and two hexadecimal digits. */
  datatype Token = Plain(b: byte) | Blank | Escape(hi: byte, lo: byte)

  predicate TokenOk(t: Token)
  {
    match t
    case Plain(b) => b != 0 && b != 0x25 && b != 0x2B && b != 0x26
    case Blank => true
    case Escape(hi, lo) => HexValue(hi).Some? && HexValue(lo).Some?
  }

  type Encoding = ts: seq<Token> | forall i :: 0 <= i < |ts| ==> TokenOk(ts[i]) witness []

  function TokenText(t: Token): (s: seq<byte>)
    ensures 1 <= |s| <= 3
  {
    match t
    case Plain(b) => [b]
    case Blank => [0x2B]
    case Escape(hi, lo) => [0x25, hi, lo]
  }

  /** The byte that RFC 3986 section 2.1 and HTML 4.01 section 17.13.4 assign to it. */
  function TokenValue(t: Token): byte
    requires TokenOk(t)
  {
    match t
    case Plain(b) => b
    case Blank => 0x20
    case Escape(hi, lo) => (16 * HexValue(hi).value + HexValue(lo).value) as byte
  }

  function Text(ts: Encoding): seq<byte>
  {
    if ts == [] then [] else TokenText(ts[0]) + Text(ts[1..])
  }

  function Value(ts: Encoding): (v: seq<byte>)
    ensures |v| == |ts|
  {
    if ts == [] then [] else [TokenValue(ts[0])] + Value(ts[1..])
  }

  function HexDigit(n: nat): (c: byte)
    requires n < 16
    ensures HexValue(c) == Some(n)
  {
    if n < 10 then 0x30 + n as byte else 0x41 + (n - 10) as byte
  }

  /** Letters, digits and - . _ ~ stand for themselves, everything else is escaped. */
  predicate Unreserved(b: byte)
  {
    0x30 <= b <= 0x39 || 0x41 <= b <= 0x5A || 0x61 <= b <= 0x7A || b in {0x2D, 0x2E, 0x5F, 0x7E}
  }

  /** 0123456789ABCDEF */
  const UPPER: seq<byte> := [0x30, 0x31, 0x32, 0x33, 0x34, 0x35, 0x36, 0x37, 0x38, 0x39,
                             0x41, 0x42, 0x43, 0x44, 0x45, 0x46]

  /** 0123456789abcdef */
  const LOWER: seq<byte> := [0x30, 0x31, 0x32, 0x33, 0x34, 0x35, 0x36, 0x37, 0x38, 0x39,
                             0x61, 0x62, 0x63, 0x64, 0x65, 0x66]

  /** The digits are those of either case, each with its place as its value, and there are no others. */
  lemma HexDigits(c: byte, n: nat)
    requires n < 16
    ensures HexValue(c) == Some(n) <==> c == UPPER[n] || c == LOWER[n]
  {
  }

  /** The three characters of an escape, in either case, decode to the byte they spell. */
  lemma EscapeIsByte(a: byte, b: byte, hi: nat, lo: nat, beyond: Beyond)
    requires hi < 16 && (a == UPPER[hi] || a == LOWER[hi])
    requires lo < 16 && (b == UPPER[lo] || b == LOWER[lo])
    ensures DecodeFrom([0x25, a, b], beyond, 0, 3) == [(16 * hi + lo) as byte]
  {
    assert HexValue(a) == Some(hi) by {
      HexDigits(a, hi);
    }
    assert HexValue(b) == Some(lo) by {
      HexDigits(b, lo);
    }
    OneEscape(a, b, beyond);
    TwoDigits(a, b, hi, lo);
  }

  lemma TwoDigits(a: byte, b: byte, hi: nat, lo: nat)
    requires HexValue(a) == Some(hi) && HexValue(b) == Some(lo) && hi < 16 && lo < 16
    ensures ToByte(Strtol16(a, b)) == (16 * hi + lo) as byte
  {
  }

  lemma OneEscape(a: byte, b: byte, beyond: Beyond)
    ensures DecodeFrom([0x25, a, b], beyond, 0, 3) == [ToByte(Strtol16(a, b))]
  {
    assert DecodeFrom([0x25, a, b], beyond, 3, 3) == [];
  }

  /** An escape without digits: %g1 gives 0, %4g gives 4, %+5 and a blank before 5 give 5, and %-5 gives 251. */
  lemma MalformedEscapes(beyond: Beyond)
    ensures DecodeFrom([0x25, 0x67, 0x31], beyond, 0, 3) == [0]
    ensures DecodeFrom([0x25, 0x34, 0x67], beyond, 0, 3) == [4]
    ensures DecodeFrom([0x25, 0x2B, 0x35], beyond, 0, 3) == [5]
    ensures DecodeFrom([0x25, 0x20, 0x35], beyond, 0, 3) == [5]
    ensures DecodeFrom([0x25, 0x2D, 0x35], beyond, 0, 3) == [251]
  {
  }

  /** A plus sign decodes to a blank, and every other byte but the percent sign and zero to itself. */
  lemma OtherBytes(b: byte, beyond: Beyond)
    requires b != 0 && b != 0x25
    ensures DecodeFrom([b], beyond, 0, 1) == [if b == 0x2B then 0x20 else b]
  {
    assert DecodeFrom([b], beyond, 1, 1) == [];
  }

  /** The encoder of RFC 3986, so that every value has at least one encoding. */
  function PercentEncode(v: seq<byte>): (ts: Encoding)
    ensures Value(ts) == v
  {
    if v == [] then []
    else
      var b := v[0] as nat;
      [if Unreserved(v[0]) then Plain(v[0]) else Escape(HexDigit(b / 16), HexDigit(b % 16))] + PercentEncode(v[1..])
  }

  lemma TokenDecodes(t: Token)
    requires TokenOk(t)
    ensures t.Escape? ==> ToByte(Strtol16(t.hi, t.lo)) == TokenValue(t)
    ensures AMPERSAND !in TokenText(t) && 0 !in TokenText(t)
  {
  }

  /** Decoding an encoding that sits between other text gives back its value, and stays inside the string. */
  lemma {:induction false} DecodeEncoding(before: seq<byte>, ts: Encoding, after: seq<byte>, beyond: Beyond)
    ensures var s := before + Text(ts) + after;
            var end := |before| + |Text(ts)|;
            DecodeFrom(s, beyond, |before|, end) == Value(ts) && !Overreads(s, beyond, |before|, end)
    decreases |ts|
  {
    if ts != [] {
      var t, rest := ts[0], ts[1..];
      DecodeEncoding(before + TokenText(t), rest, after, beyond);
      DecodeToken(before, t, Text(rest), after, Value(rest), beyond);
    }
  }

  lemma DecodeToken(before: seq<byte>, t: Token, text: seq<byte>, after: seq<byte>, value: seq<byte>, beyond: Beyond)
    requires TokenOk(t)
    requires var s := before + TokenText(t) + text + after;
             var p := |before + TokenText(t)|;
             DecodeFrom(s, beyond, p, p + |text|) == value && !Overreads(s, beyond, p, p + |text|)
    ensures var s := before + (TokenText(t) + text) + after;
            var end := |before| + |TokenText(t) + text|;
            DecodeFrom(s, beyond, |before|, end) == [TokenValue(t)] + value && !Overreads(s, beyond, |before|, end)
  {
    var s := before + (TokenText(t) + text) + after;
    assert s == before + TokenText(t) + text + after;
    TokenDecodes(t);
    assert s[|before|] == TokenText(t)[0];
    if t.Escape? {
      assert s[|before| + 1] == t.hi && s[|before| + 2] == t.lo;
    }
  }

  lemma {:induction false} TextIsClean(ts: Encoding)
    ensures AMPERSAND !in Text(ts) && 0 !in Text(ts)
    decreases |ts|
  {
    if ts != [] {
      TokenDecodes(ts[0]);
      TextIsClean(ts[1..]);
    }
  }

  // ----- key and value -----

  predicate OccursAt(s: seq<byte>, key: seq<byte>, i: nat)
  {
    i + |key| <= |s| && s[i..i + |key|] == key
  }

  /** strstr */
  function Find(s: seq<byte>, key: seq<byte>, i: nat): (r: Option<nat>)
    requires i <= |s|
    ensures r.Some? ==> i <= r.value <= |s| && OccursAt(s, key, r.value)
    ensures r.Some? ==> forall j: nat :: i <= j < r.value ==> !OccursAt(s, key, j)
    ensures r.None? ==> forall j: nat :: i <= j ==> !OccursAt(s, key, j)
    decreases |s| - i
  {
    if OccursAt(s, key, i) then Some(i)
    else if i == |s| then None
    else Find(s, key, i + 1)
  }

  /** strchr from position i; |s| when there is none. */
  function FindChar(s: seq<byte>, c: byte, i: nat): (r: nat)
    requires i <= |s|
    ensures i <= r <= |s|
    ensures r < |s| ==> s[r] == c
    ensures forall j :: i <= j < r ==> s[j] != c
    decreases |s| - i
  {
    if i == |s| || s[i] == c then i else FindChar(s, c, i + 1)
  }

  datatype Range = Range(err: Err, start: nat, len: nat)

  /** Where the value of a key lies in the URI. */
  function ValueRange(uri: seq<byte>, key: seq<byte>): (r: Range)
    ensures r.err == Ok ==> r.start + r.len <= |uri| && r.len <= MAX_VALUE
  {
    match Find(uri, key, 0)
    case None => Range(NotFound, 0, 0)
    case Some(at) =>
      var end := FindChar(uri, AMPERSAND, at);
      var eq := FindChar(uri, EQUALS, at);
      if eq == |uri| || eq > end then Range(InvalidArg, 0, 0)
      else if end - eq - 1 > MAX_VALUE then Range(InvalidArg, 0, 0)
      else Range(Ok, eq + 1, end - eq - 1)
  }

  /** The key occurs first at `at`, and the first '=' from there on lies before any '&'. */
  ghost predicate FirstPair(uri: seq<byte>, key: seq<byte>, at: nat, eq: nat)
  {
    && OccursAt(uri, key, at) && (forall j: nat :: j < at ==> !OccursAt(uri, key, j))
    && at <= eq < |uri| && uri[eq] == 0x3D
    && forall j :: at <= j < eq ==> uri[j] != 0x3D && uri[j] != 0x26
  }

  /** The bytes from there to the next '&' or the end. */
  ghost predicate ValueAt(uri: seq<byte>, start: nat, len: nat)
  {
    && start + len <= |uri| && (start + len < |uri| ==> uri[start + len] == 0x26)
    && forall j :: start <= j < start + len ==> uri[j] != 0x26
  }

  /** When each outcome occurs, and what is located. */
  lemma RangeIff(uri: seq<byte>, key: seq<byte>) returns (at: nat)
    ensures var r := ValueRange(uri, key);
            && (r.err == NotFound <==> forall j: nat :: !OccursAt(uri, key, j))
            && (r.err == Ok ==>
                  r.len <= 128 && ValueAt(uri, r.start, r.len) && r.start >= 1
                  && FirstPair(uri, key, at, r.start - 1))
  {
    match Find(uri, key, 0)
    case None =>
      at := 0;
      assert forall j: nat :: 0 <= j ==> !OccursAt(uri, key, j);
    case Some(first) =>
      at := first;
      assert OccursAt(uri, key, at);
      if ValueRange(uri, key).err == Ok {
        assert FirstPair(uri, key, at, ValueRange(uri, key).start - 1);
      }
  }

  /** Every first pair whose value has at most 128 bytes is accepted, and that value is located. */
  lemma FirstPairIsAccepted(uri: seq<byte>, key: seq<byte>, at: nat, eq: nat, len: nat)
    requires FirstPair(uri, key, at, eq) && ValueAt(uri, eq + 1, len)
    ensures ValueRange(uri, key) == if len <= 128 then Range(Ok, eq + 1, len) else Range(InvalidArg, 0, 0)
  {
    var r := Find(uri, key, 0);
    assert r.Some? && r.value == at;
    FindCharIs(uri, EQUALS, at, eq);
    FindCharIs(uri, AMPERSAND, at, eq + 1 + len);
  }

  /** The text of the value and a terminating zero fit into n bytes, or nothing is written. */
  predicate FitsIn(uri: seq<byte>, key: seq<byte>, n: nat)
  {
    var r := ValueRange(uri, key);
    r.err == Ok ==> r.len < n
  }

  method ParseUrlKvPair(uri: Option<seq<byte>>, key: Option<seq<byte>>, beyond: Beyond, value: array?<byte>)
    returns (err: Err)
    requires uri.Some? && key.Some? && value != null ==> FitsIn(uri.value, key.value, value.Length)
    modifies value
    ensures uri.None? || key.None? || value == null ==> err == InvalidArg
    ensures uri.Some? && key.Some? && value != null ==>
              var r := ValueRange(uri.value, key.value);
              && err == r.err
              && (err == Ok ==>
                    CString(value[..]) == CString(Decoded(uri.value, r.start, r.start + r.len)) && value[r.len] == 0)
              && (err != Ok ==> value[..] == old(value[..]))
  {
    if uri.None? || key.None? || value == null {
      return InvalidArg;
    }
    var at := Find(uri.value, key.value, 0);
    if at.None? {
      return NotFound;
    }
    var end := FindChar(uri.value, AMPERSAND, at.value);
    var eq := FindChar(uri.value, EQUALS, at.value);
    if eq == |uri.value| || eq > end {
      return InvalidArg;
    }
    assert eq < end;
    var len := end - eq - 1;
    if len > MAX_VALUE {
      return InvalidArg;
    }
    StoreValue(uri.value, beyond, eq + 1, len, value);
    err := Ok;
  }

  method StoreValue(uri: seq<byte>, beyond: Beyond, start: nat, len: nat, value: array<byte>)
    requires start + len <= |uri| && len < value.Length
    modifies value
    ensures CString(value[..]) == CString(Decoded(uri, start, start + len)) && value[len] == 0
  {
    UrlDecodeCopyN(value, uri, beyond, start, len);
    ghost var r := DecodeFrom(uri, beyond, start, start + len);
    BeyondDoesNotMatter(uri, beyond, NothingBeyond, start, start + len);
    CStringEnds(value[..], r);
    value[len] := 0;
    CStringEnds(value[..], r);
  }

  /** Bytes behind the terminating zero do not matter. */
  lemma {:induction false} CStringEnds(s: seq<byte>, r: seq<byte>)
    requires |r| < |s| && s[..|r|] == r && s[|r|] == 0
    ensures CString(s) == CString(r)
    decreases |r|
  {
    if r != [] {
      assert s[0] == s[..|r|][0] == r[0];
      if r[0] != 0 {
        assert s[1..][..|r| - 1] == s[..|r|][1..] == r[1..];
        CStringEnds(s[1..], r[1..]);
      }
    }
  }

  lemma {:induction false} CStringOfNonZero(r: seq<byte>)
    requires 0 !in r
    ensures CString(r) == r
    decreases |r|
  {
    if r != [] {
      CStringOfNonZero(r[1..]);
    }
  }

  /** The key is its own parameter, with this encoding behind the '='. */
  function Uri(prefix: seq<byte>, key: seq<byte>, ts: Encoding, suffix: seq<byte>): seq<byte>
  {
    prefix + key + [0x3D] + Text(ts) + suffix
  }

  lemma FindCharIs(s: seq<byte>, c: byte, i: nat, at: nat)
    requires i <= at <= |s| && (at < |s| ==> s[at] == c) && forall j :: i <= j < at ==> s[j] != c
    ensures FindChar(s, c, i) == at
  {
    assert FindChar(s, c, i) >= at;
  }

  /** The byte at a place of the URI, part by part. */
  lemma UriBytes(prefix: seq<byte>, key: seq<byte>, text: seq<byte>, suffix: seq<byte>, uri: seq<byte>)
    requires uri == prefix + key + [0x3D] + text + suffix
    ensures var eq := |prefix| + |key|;
            && uri[|prefix|..eq] == key && uri[eq] == EQUALS
            && uri[eq + 1..] == text + suffix
            && (forall j :: |prefix| <= j < eq ==> uri[j] == key[j - |prefix|])
            && (forall j :: eq < j < eq + 1 + |text| ==> uri[j] == text[j - eq - 1])
            && (suffix != [] ==> uri[eq + 1 + |text|] == suffix[0])
            && |uri| == eq + 1 + |text| + |suffix|
  {
  }

  /** From the first occurrence of the key to its own place there is no '=' and no '&'. */
  predicate LeadsToOwn(uri: seq<byte>, key: seq<byte>, own: nat)
  {
    match Find(uri, key, 0)
    case None => false
    case Some(at) => at <= own <= |uri| && 0x3D !in uri[at..own] && 0x26 !in uri[at..own]
  }

  lemma FirstAtOwn(uri: seq<byte>, key: seq<byte>, own: nat)
    requires OccursAt(uri, key, own) && forall j: nat :: j < own ==> !OccursAt(uri, key, j)
    ensures LeadsToOwn(uri, key, own)
  {
    assert Find(uri, key, 0) == Some(own);
  }

  /** The range found is the parameter's own exactly when nothing separates it from the first occurrence. */
  lemma RangeOf(prefix: seq<byte>, key: seq<byte>, text: seq<byte>, suffix: seq<byte>, uri: seq<byte>)
    requires 0x3D !in key && 0x26 !in key && 0x26 !in text
    requires suffix == [] || suffix[0] == 0x26
    requires |text| <= 128 && uri == prefix + key + [0x3D] + text + suffix
    ensures ValueRange(uri, key) == Range(Ok, |prefix| + |key| + 1, |text|) <==> LeadsToOwn(uri, key, |prefix|)
  {
    UriBytes(prefix, key, text, suffix, uri);
    assert OccursAt(uri, key, |prefix|);
    var at := Find(uri, key, 0).value;
    var lead := uri[at..|prefix|];
    assert forall j :: at <= j < |prefix| ==> uri[j] == lead[j - at];
    if LeadsToOwn(uri, key, |prefix|) {
      FindCharIs(uri, EQUALS, at, |prefix| + |key|);
      FindCharIs(uri, AMPERSAND, at, |prefix| + |key| + 1 + |text|);
    }
  }

  /**
  Whatever encoding was chosen for a value without zero bytes, parsing finds it and
  gives it back, exactly when the first occurrence of the key leads to the parameter.
  */
  lemma ParseInvertsEncoding(prefix: seq<byte>, key: seq<byte>, ts: Encoding, suffix: seq<byte>, beyond: Beyond)
    requires 0x3D !in key && 0x26 !in key
    requires suffix == [] || suffix[0] == 0x26
    requires |Text(ts)| <= 128 && 0 !in Value(ts)
    ensures var uri, start, len := Uri(prefix, key, ts, suffix), |prefix| + |key| + 1, |Text(ts)|;
            && (ValueRange(uri, key) == Range(Ok, start, len) <==> LeadsToOwn(uri, key, |prefix|))
            && CString(Decoded(uri, start, start + len)) == Value(ts)
            && !Overreads(uri, beyond, start, start + len)
  {
    RangeOfEncoding(prefix, key, ts, suffix);
    DecodeOwn(prefix, key, ts, suffix, beyond);
  }

  lemma RangeOfEncoding(prefix: seq<byte>, key: seq<byte>, ts: Encoding, suffix: seq<byte>)
    requires 0x3D !in key && 0x26 !in key
    requires suffix == [] || suffix[0] == 0x26
    requires |Text(ts)| <= 128
    ensures ValueRange(Uri(prefix, key, ts, suffix), key) == Range(Ok, |prefix| + |key| + 1, |Text(ts)|)
            <==> LeadsToOwn(Uri(prefix, key, ts, suffix), key, |prefix|)
  {
    TextIsClean(ts);
    RangeOf(prefix, key, Text(ts), suffix, Uri(prefix, key, ts, suffix));
  }

  lemma DecodeBehind(before: seq<byte>, ts: Encoding, suffix: seq<byte>, beyond: Beyond)
    requires 0 !in Value(ts)
    ensures var uri, start := before + Text(ts) + suffix, |before|;
            && CString(Decoded(uri, start, start + |Text(ts)|)) == Value(ts)
            && !Overreads(uri, beyond, start, start + |Text(ts)|)
  {
    DecodeEncoding(before, ts, suffix, beyond);
    DecodeEncoding(before, ts, suffix, NothingBeyond);
    CStringOfNonZero(Value(ts));
  }

  lemma DecodeOwn(prefix: seq<byte>, key: seq<byte>, ts: Encoding, suffix: seq<byte>, beyond: Beyond)
    requires 0 !in Value(ts)
    ensures var uri, start := Uri(prefix, key, ts, suffix), |prefix| + |key| + 1;
            && CString(Decoded(uri, start, start + |Text(ts)|)) == Value(ts)
            && !Overreads(uri, beyond, start, start + |Text(ts)|)
  {
    var before := prefix + key + [0x3D];
    assert Uri(prefix, key, ts, suffix) == before + Text(ts) + suffix && |before| == |prefix| + |key| + 1;
    DecodeBehind(before, ts, suffix, beyond);
  }

  /** In particular when the first occurrence of the key is the parameter itself. */
  lemma ParseInvertsOwnKey(prefix: seq<byte>, key: seq<byte>, ts: Encoding, suffix: seq<byte>)
    requires 0x3D !in key && 0x26 !in key
    requires suffix == [] || suffix[0] == 0x26
    requires |Text(ts)| <= 128 && 0 !in Value(ts)
    requires forall j: nat :: j < |prefix| ==> !OccursAt(Uri(prefix, key, ts, suffix), key, j)
    ensures var uri, start, len := Uri(prefix, key, ts, suffix), |prefix| + |key| + 1, |Text(ts)|;
            && ValueRange(uri, key) == Range(Ok, start, len)
            && CString(Decoded(uri, start, start + len)) == Value(ts)
  {
    OwnKeyLeads(prefix, key, ts, suffix);
    ParseInvertsEncoding(prefix, key, ts, suffix, NothingBeyond);
  }

  lemma OwnKeyLeads(prefix: seq<byte>, key: seq<byte>, ts: Encoding, suffix: seq<byte>)
    requires forall j: nat :: j < |prefix| ==> !OccursAt(Uri(prefix, key, ts, suffix), key, j)
    ensures LeadsToOwn(Uri(prefix, key, ts, suffix), key, |prefix|)
  {
    var uri := Uri(prefix, key, ts, suffix);
    UriBytes(prefix, key, Text(ts), suffix, uri);
    FirstAtOwn(uri, key, |prefix|);
  }

  // ----- the buffer of the caller -----

  /** A buffer of n bytes is large enough exactly when the encoded text is shorter than that. */
  lemma FitsInIff(prefix: seq<byte>, key: seq<byte>, ts: Encoding, suffix: seq<byte>, n: nat)
    requires 0x3D !in key && 0x26 !in key
    requires suffix == [] || suffix[0] == 0x26
    requires |Text(ts)| <= 128 && LeadsToOwn(Uri(prefix, key, ts, suffix), key, |prefix|)
    ensures FitsIn(Uri(prefix, key, ts, suffix), key, n) <==> |Text(ts)| < n
  {
    RangeOfEncoding(prefix, key, ts, suffix);
  }

  /** A buffer of 129 bytes is large enough for every URI. */
  lemma AlwaysFits(uri: seq<byte>, key: seq<byte>)
    ensures FitsIn(uri, key, 129)
  {
  }

  /** The buffer of nvs_variable_handler. */
  const VARIABLE_BUFFER := 65

  /** value */
  const VALUE_KEY: seq<byte> := [0x76, 0x61, 0x6C, 0x75, 0x65]

  /** So many letters x. */
  function Letters(n: nat): (ts: Encoding)
    ensures |ts| == n && forall i :: 0 <= i < n ==> ts[i] == Plain(0x78)
  {
    seq(n, _ => Plain(0x78))
  }

  lemma {:induction false} LettersText(ts: Encoding)
    requires forall i :: 0 <= i < |ts| ==> ts[i] == Plain(0x78)
    ensures |Text(ts)| == |ts|
    decreases |ts|
  {
    if ts != [] {
      LettersText(ts[1..]);
    }
  }

  /** /v1/nvs/variable/x? */
  const VARIABLE_PATH: seq<byte> :=
    [0x2F, 0x76, 0x31, 0x2F, 0x6E, 0x76, 0x73, 0x2F, 0x76, 0x61,
     0x72, 0x69, 0x61, 0x62, 0x6C, 0x65, 0x2F, 0x78, 0x3F]

  /** The key does not occur in that path. */
  lemma OwnValueKey(uri: seq<byte>, j: nat)
    requires |uri| >= 24 && uri[..19] == VARIABLE_PATH && uri[19..24] == VALUE_KEY && j < 19
    ensures !OccursAt(uri, VALUE_KEY, j)
  {
    var p := VARIABLE_PATH;
    assert forall i :: 0 <= i < 19 ==> uri[i] == p[i];
    assert forall i :: 0 <= i < 5 ==> uri[19 + i] == VALUE_KEY[i];
    assert uri[j..j + 5][0] == uri[j] && uri[j..j + 5][2] == uri[j + 2];
  }

  /** The parser accepts /v1/nvs/variable/x?value=xx..x with n letters, and writes up to place n of the buffer. */
  lemma LettersFitIff(n: nat, size: nat)
    requires n <= 128
    ensures var uri := Uri(VARIABLE_PATH, VALUE_KEY, Letters(n), []);
            ValueRange(uri, VALUE_KEY) == Range(Ok, 25, n) && (FitsIn(uri, VALUE_KEY, size) <==> n < size)
  {
    var uri := Uri(VARIABLE_PATH, VALUE_KEY, Letters(n), []);
    LettersText(Letters(n));
    forall j: nat | j < 19
      ensures !OccursAt(uri, VALUE_KEY, j)
    {
      OwnValueKey(uri, j);
    }
    OwnKeyLeads(VARIABLE_PATH, VALUE_KEY, Letters(n), []);
    RangeOfEncoding(VARIABLE_PATH, VALUE_KEY, Letters(n), []);
  }

  /** So 65 letters are accepted and overrun that buffer by one byte; 64 fit. */
  lemma VariableBufferOverrun()
    ensures !FitsIn(Uri(VARIABLE_PATH, VALUE_KEY, Letters(65), []), VALUE_KEY, VARIABLE_BUFFER)
    ensures FitsIn(Uri(VARIABLE_PATH, VALUE_KEY, Letters(64), []), VALUE_KEY, VARIABLE_BUFFER)
  {
    LettersFitIff(65, VARIABLE_BUFFER);
    LettersFitIff(64, VARIABLE_BUFFER);
  }

  // ----- two URIs -----

  /** /v1?id=% */
  const CUT_URI: seq<byte> := [0x2F, 0x76, 0x31, 0x3F, 0x69, 0x64, 0x3D, 0x25]

  /** /v1?xid=5&id=7 */
  const OTHER_URI: seq<byte> := [0x2F, 0x76, 0x31, 0x3F, 0x78, 0x69, 0x64, 0x3D, 0x35, 0x26, 0x69, 0x64, 0x3D, 0x37]

  /** id */
  const ID_KEY: seq<byte> := [0x69, 0x64]

  lemma FindIs(s: seq<byte>, key: seq<byte>, at: nat)
    requires OccursAt(s, key, at) && forall j: nat :: j < at ==> !OccursAt(s, key, j)
    ensures Find(s, key, 0) == Some(at)
  {
    var r := Find(s, key, 0);
    assert r.Some? && r.value >= at;
  }

  lemma NoMatch(s: seq<byte>, key: seq<byte>, j: nat)
    requires key != [] && j < |s| && s[j] != key[0]
    ensures !OccursAt(s, key, j)
  {
    if j + |key| <= |s| {
      assert s[j..j + |key|][0] == s[j];
    }
  }

  /** A request accepted with an empty value, for which the decoder reads past the end of the URI. */
  lemma CutEscapeOverreads(beyond: Beyond)
    ensures ValueRange(CUT_URI, ID_KEY) == Range(Ok, 7, 1)
    ensures Overreads(CUT_URI, beyond, 7, 8)
    ensures CString(Decoded(CUT_URI, 7, 8)) == []
  {
    forall j: nat | j < 4 ensures !OccursAt(CUT_URI, ID_KEY, j) {
      NoMatch(CUT_URI, ID_KEY, j);
    }
    assert CUT_URI[4..6] == ID_KEY;
    FindIs(CUT_URI, ID_KEY, 4);
    var u := CUT_URI;
    assert u[4] == 0x69 && u[5] == 0x64 && u[6] == EQUALS && u[7] == PERCENT;
    FindCharIs(CUT_URI, AMPERSAND, 4, 8);
    FindCharIs(CUT_URI, EQUALS, 4, 6);
  }

  /** With the key hidden in another one, the other parameter's value is returned: 5 for id, not 7. */
  lemma OtherValueReturned()
    ensures ValueRange(OTHER_URI, ID_KEY) == Range(Ok, 8, 1) && !LeadsToOwn(OTHER_URI, ID_KEY, 10)
    ensures CString(Decoded(OTHER_URI, 8, 9)) == [0x35]
  {
    forall j: nat | j < 5 ensures !OccursAt(OTHER_URI, ID_KEY, j) {
      NoMatch(OTHER_URI, ID_KEY, j);
    }
    assert OTHER_URI[5..7] == ID_KEY;
    FindIs(OTHER_URI, ID_KEY, 5);
    var u := OTHER_URI;
    assert u[5] == 0x69 && u[6] == 0x64 && u[7] == EQUALS && u[8] == 0x35 && u[9] == AMPERSAND;
    FindCharIs(OTHER_URI, AMPERSAND, 5, 9);
    FindCharIs(OTHER_URI, EQUALS, 5, 7);
    assert OTHER_URI[5..10][2] == EQUALS;
  }
}
