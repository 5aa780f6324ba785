/**
 Encoding of strings and the decoding of percent-encoded URLs (buffer.c). Encoding
 counts before it writes; decoding works in place.
 */
module UrlCoding {
  import opened Wrappers

  type Bytes = seq<byte>

  const PERCENT: byte := '%' as int
  const PLUS: byte := '+' as int
  const SPACE: byte := ' ' as int
  const UNDERSCORE: byte := '_' as int

  // ----- hexadecimal digits

  /** An integer cut to an unsigned char. */
  function UChar(x: int): byte {
    x % 256
  }

  /** x | 0x20, for an int that is cut to eight bits afterwards. */
  function Or20(x: int): int {
    if x / 32 % 2 == 1 then x else x + 32
  }

  /** hex2int, in the unsigned chars it computes with. */
  function Hex2Int(c: byte): byte {
    var hex := UChar(c - '0' as int);
    var hex1 := if hex > 9 then UChar(UChar(Or20(hex + '0' as int - 1)) - 'a' as int + 11) else hex;
    if hex1 > 15 then 0xFF else hex1
  }

  lemma Hex2IntExact(c: byte)
    ensures Hex2Int(c) == match HexValue(c) case Some(d) => d case None => 0xFF
  {
    if c < 48 {
      assert UChar(c - 48) == c + 208;
    } else {
      assert UChar(c - 48) == c - 48;
    }
  }

  // ----- encoding

  datatype Encoding = RelUri | RelUriPart | Html | MinimalXml | Hex | HttpHeader

  predicate Alphanumeric(b: byte) {
    '0' as int <= b <= '9' as int || 'A' as int <= b <= 'Z' as int || 'a' as int <= b <= 'z' as int
  }

  /** The bytes that the table of an encoding marks. */
  predicate Marked(e: Encoding, b: byte) {
    match e
    case RelUri => !Alphanumeric(b) && b !in [0x21, 0x28, 0x29, 0x2A, 0x2D, 0x2E, 0x2F, 0x5F]
    case RelUriPart => !Alphanumeric(b) && b !in [0x21, 0x28, 0x29, 0x2A, 0x2D, 0x2E, 0x5F]
    case Html => b < 32 || b >= 127 || b in [0x26, 0x3C, 0x3E]
    case MinimalXml => b < 32 || b == 127 || b in [0x26, 0x3C, 0x3E]
    case Hex => true
    case HttpHeader => b == 10
  }

  /** The characters that an encoding leaves as they are. */
  lemma MarkedExact(e: Encoding, b: byte)
    ensures var c := b as char;
            e == RelUri || e == RelUriPart ==>
              (!Marked(e, b) <==>
               || '0' <= c <= '9' || 'A' <= c <= 'Z' || 'a' <= c <= 'z' || c in "!()*-._"
               || (e == RelUri && c == '/'))
    ensures e == Html ==> (Marked(e, b) <==> b < 0x20 || b >= 0x7F || b as char in "&<>")
    ensures e == MinimalXml ==> (Marked(e, b) <==> b < 0x20 || b == 0x7F || b as char in "&<>")
    ensures e == Hex ==> Marked(e, b)
    ensures e == HttpHeader ==> (Marked(e, b) <==> b == '\n' as int)
  {
  }

  function EncodeByte(e: Encoding, b: byte): Bytes {
    if !Marked(e, b) then [b]
    else match e
      case RelUri => [PERCENT, HexDigit(b / 16), HexDigit(b % 16)]
      case RelUriPart => [PERCENT, HexDigit(b / 16), HexDigit(b % 16)]
      case Html => ['&' as int, '#' as int, 'x' as int, HexDigit(b / 16), HexDigit(b % 16), ';' as int]
      case MinimalXml => ['&' as int, '#' as int, 'x' as int, HexDigit(b / 16), HexDigit(b % 16), ';' as int]
      case Hex => [HexDigit(b / 16), HexDigit(b % 16)]
      case HttpHeader => [b, 9]
  }

  function Encode(e: Encoding, s: Bytes): Bytes {
    if s == [] then [] else EncodeByte(e, s[0]) + Encode(e, s[1..])
  }

  lemma {:induction false} EncodeAppend(e: Encoding, s: Bytes, b: byte)
    ensures Encode(e, s + [b]) == Encode(e, s) + EncodeByte(e, b)
  {
    hide EncodeByte;
    if s == [] {
      assert Encode(e, [b]) == EncodeByte(e, b) + Encode(e, []);
      assert s + [b] == [b];
    } else {
      EncodeAppend(e, s[1..], b);
      assert (s + [b])[1..] == s[1..] + [b];
    }
  }

  lemma EncodeNothing(e: Encoding, s: Bytes)
    ensures Encode(e, s[..0]) == []
  {}

  lemma {:induction false} EncodePrefix(e: Encoding, s: Bytes, i: nat)
    requires i <= |s|
    ensures |Encode(e, s[..i])| <= |Encode(e, s)|
    decreases |s| - i
  {
    hide EncodeByte;
    if i < |s| {
      EncodePrefix(e, s, i + 1);
      EncodeAppend(e, s[..i], s[i]);
      assert s[..i + 1] == s[..i] + [s[i]];
    } else {
      assert s[..i] == s;
    }
  }

  lemma EncodeNext(e: Encoding, s: Bytes, i: nat)
    requires i < |s|
    ensures Encode(e, s[..i + 1]) == Encode(e, s[..i]) + EncodeByte(e, s[i])
    ensures |Encode(e, s[..i + 1])| <= |Encode(e, s)|
  {
    hide EncodeByte;
    EncodeAppend(e, s[..i], s[i]);
    assert s[..i + 1] == s[..i] + [s[i]];
    EncodePrefix(e, s, i + 1);
  }

  // ----- the other encodings read back

  /** The bytes of a string of hexadecimal digits, two for each. */
  function ReadHex(s: Bytes): Option<Bytes> {
    if s == [] then Some([])
    else if |s| >= 2 && HexValue(s[0]).Some? && HexValue(s[1]).Some? && ReadHex(s[2..]).Some?
    then Some([16 * HexValue(s[0]).value + HexValue(s[1]).value] + ReadHex(s[2..]).value)
    else None
  }

  /** Text with character references of two hexadecimal digits. */
  function ReadReferences(s: Bytes): Bytes {
    if s == [] then []
    else if |s| >= 6 && s[0] == '&' as int && s[1] == '#' as int && s[2] == 'x' as int && s[5] == ';' as int
            && HexValue(s[3]).Some? && HexValue(s[4]).Some?
    then [16 * HexValue(s[3]).value + HexValue(s[4]).value] + ReadReferences(s[6..])
    else [s[0]] + ReadReferences(s[1..])
  }

  /** Header text in which a line goes on after a newline and a tab. */
  function ReadFolded(s: Bytes): Bytes {
    if s == [] then []
    else if |s| >= 2 && s[0] == '\n' as int && s[1] == '\t' as int then [s[0]] + ReadFolded(s[2..])
    else [s[0]] + ReadFolded(s[1..])
  }

  lemma {:induction false} HexReadBack(s: Bytes)
    ensures ReadHex(Encode(Hex, s)) == Some(s)
  {
    if s == [] {
    } else {
      HexReadBack(s[1..]);
      assert Encode(Hex, s)[2..] == Encode(Hex, s[1..]) && s == [s[0]] + s[1..];
    }
  }

  lemma ReferenceRead(e: Encoding, b: byte, u: Bytes)
    requires e == Html || e == MinimalXml
    ensures ReadReferences(EncodeByte(e, b) + u) == [b] + ReadReferences(u)
  {
    var w := EncodeByte(e, b) + u;
    if Marked(e, b) {
      assert w[6..] == u;
    } else {
      assert w[1..] == u;
    }
  }

  lemma {:induction false} ReferencesReadBack(e: Encoding, s: Bytes)
    requires e == Html || e == MinimalXml
    ensures ReadReferences(Encode(e, s)) == s
  {
    if s == [] {
    } else {
      hide EncodeByte, ReadReferences;
      ReferencesReadBack(e, s[1..]);
      ReferenceRead(e, s[0], Encode(e, s[1..]));
    }
  }

  /** Nothing in the encoded text opens or closes a tag, nor is it a control byte; of HTML it is plain ASCII. */
  lemma {:induction false} NoMarkup(e: Encoding, s: Bytes, k: nat)
    requires (e == Html || e == MinimalXml) && k < |Encode(e, s)|
    ensures var b := Encode(e, s)[k];
            b >= 32 && b != 127 && b != '<' as int && b != '>' as int && (e == Html ==> b < 127)
  {
    var n := |EncodeByte(e, s[0])|;
    if k >= n {
      NoMarkup(e, s[1..], k - n);
    } else {
      assert Encode(e, s)[k] == EncodeByte(e, s[0])[k];
    }
  }

  lemma {:induction false} FoldedReadBack(s: Bytes)
    ensures ReadFolded(Encode(HttpHeader, s)) == s
  {
    if s == [] {
    } else {
      var u := Encode(HttpHeader, s);
      FoldedReadBack(s[1..]);
      if s[0] == '\n' as int {
        assert u[2..] == Encode(HttpHeader, s[1..]) && u[0] == s[0] && u[1] == 9;
      } else {
        assert u[1..] == Encode(HttpHeader, s[1..]) && u[0] == s[0];
      }
    }
  }

  /** After every newline the header line goes on. */
  lemma {:induction false} LinesGoOn(s: Bytes, k: nat)
    requires k < |Encode(HttpHeader, s)| && Encode(HttpHeader, s)[k] == '\n' as int
    ensures k + 1 < |Encode(HttpHeader, s)| && Encode(HttpHeader, s)[k + 1] == '\t' as int
  {
    var n := |EncodeByte(HttpHeader, s[0])|;
    if k >= n {
      LinesGoOn(s[1..], k - n);
    }
  }

  // ----- decoding

  predicate Control(b: byte) {
    b < 32 || b == 127
  }

  function Printable(b: byte): byte {
    if Control(b) then UNDERSCORE else b
  }

  /** A string with its control bytes replaced. */
  function Sanitized(s: Bytes): (r: Bytes)
    ensures |r| == |s|
  {
    seq(|s|, i requires 0 <= i < |s| => Printable(s[i]))
  }

  /** Whether a string begins with an encoded byte, and which. */
  function Escape(s: Bytes): Option<byte> {
    if |s| >= 3 && s[0] == PERCENT && HexValue(s[1]).Some? && HexValue(s[2]).Some?
    then Some(16 * HexValue(s[1]).value + HexValue(s[2]).value) else None
  }

  function Decode(s: Bytes, query: bool): Bytes {
    if s == [] then []
    else match Escape(s)
      case Some(b) => [Printable(b)] + Decode(s[3..], query)
      case None => [if query && s[0] == PLUS then SPACE else s[0]] + Decode(s[1..], query)
  }

  lemma EscapeOf(b: byte, rest: Bytes)
    ensures Escape([PERCENT, HexDigit(b / 16), HexDigit(b % 16)] + rest) == Some(b)
  {}

  /** A byte that no percent sign stands for is kept, unless it is a plus in a query: that is a space. */
  lemma {:induction false} DecodePlain(s: Bytes, query: bool)
    requires forall i | 0 <= i < |s| :: s[i] != '%' as int
    ensures |Decode(s, query)| == |s|
    ensures forall i | 0 <= i < |s| ::
              Decode(s, query)[i] == if query && s[i] == '+' as int then ' ' as int else s[i]
  {
    if s == [] {
    } else {
      DecodePlain(s[1..], query);
    }
  }

  /**
   A percent sign before two hexadecimal digits is read as their byte, a control byte as an
   underscore; before anything else it stands for itself.
   */
  lemma DecodePercent(s: Bytes, query: bool)
    requires s != [] && s[0] == '%' as int
    ensures if |s| >= 3 && HexValue(s[1]).Some? && HexValue(s[2]).Some? then
              var b := 16 * HexValue(s[1]).value + HexValue(s[2]).value;
              Decode(s, query) == [if b < 32 || b == 127 then '_' as int else b] + Decode(s[3..], query)
            else Decode(s, query) == ['%' as int] + Decode(s[1..], query)
  {}

  lemma DecodeFirst(s: Bytes, query: bool)
    requires s != [] && s[0] != '%' as int
    ensures Decode(s, query) == Decode([s[0]], query) + Decode(s[1..], query)
  {
    assert [s[0]][1..] == [];
  }

  lemma DecodeNothing(query: bool)
    ensures Decode([], query) == []
  {}

  /** Decoding goes from left to right. */
  lemma {:induction false} DecodeAfterPlain(s: Bytes, t: Bytes, query: bool)
    requires forall i | 0 <= i < |s| :: s[i] != '%' as int
    ensures Decode(s + t, query) == Decode(s, query) + Decode(t, query)
  {
    hide Decode;
    if s == [] {
      assert s + t == t;
      DecodeNothing(query);
    } else {
      DecodeAfterPlain(s[1..], t, query);
      assert (s + t)[1..] == s[1..] + t;
      DecodeFirst(s, query);
      DecodeFirst(s + t, query);
    }
  }

  lemma SanitizedExact(s: Bytes, i: nat)
    requires i < |s|
    ensures Sanitized(s)[i] == if s[i] < 32 || s[i] == 127 then '_' as int else s[i]
  {}

  /** Decoding, as a path or a query, gives back what either URL encoding was made from, but for control bytes. */
  lemma {:induction false} RoundTrip(e: Encoding, s: Bytes, query: bool)
    requires e == RelUri || e == RelUriPart
    ensures Decode(Encode(e, s), query) == Sanitized(s)
  {
    if s == [] {
    } else {
      var x, u := s[0], Encode(e, s[1..]);
      RoundTrip(e, s[1..], query);
      assert Sanitized(s) == [Printable(x)] + Sanitized(s[1..]);
      if Marked(e, x) {
        EscapeOf(x, u);
        assert Encode(e, s)[3..] == u;
      } else {
        assert Encode(e, s)[1..] == u;
        assert Encode(e, s)[0] == x && !Control(x) && x != PERCENT && x != PLUS;
      }
    }
  }

  /** Nothing is lost exactly if there are no control bytes. */
  lemma RoundTripExact(e: Encoding, s: Bytes, query: bool)
    requires e == RelUri || e == RelUriPart
    ensures Decode(Encode(e, s), query) == s <==> forall i | 0 <= i < |s| :: !Control(s[i])
  {
    RoundTrip(e, s, query);
    if Sanitized(s) == s {
      forall i | 0 <= i < |s|
        ensures !Control(s[i])
      {
        assert Sanitized(s)[i] == Printable(s[i]);
      }
    }
  }

  // ----- the buffer

  class Buffer {
    var ptr: array<byte>
    var used: nat          // counts the terminating zero

    ghost predicate Valid()
      reads this, ptr
    {
      0 < used <= ptr.Length && ptr[used - 1] == 0
    }

    /** The content before the terminating zero. */
    ghost function Content(): Bytes
      requires Valid()
      reads this, ptr
    {
      ptr[..used - 1]
    }

    /** Makes room for size more bytes, also in a buffer that has none yet. */
    method PrepareAppend(size: nat)
      requires used <= ptr.Length
      modifies this`ptr
      ensures used + size <= ptr.Length && 0 < ptr.Length && ptr[..used] == old(ptr[..used])
      ensures ptr == old(ptr) || fresh(ptr)
    {
      if ptr.Length == 0 || used + size > ptr.Length {
        var newSize := ptr.Length + size;
        newSize := newSize + 64 - newSize % 64;
        var p := new byte[newSize](_ => 0);
        for i := 0 to used
          invariant used == old(used) && ptr == old(ptr) && ptr[..] == old(ptr[..]) && used <= ptr.Length
          invariant forall k | 0 <= k < i :: p[k] == ptr[k]
        {
          p[i] := ptr[i];
        }
        ptr := p;
      }
    }

    /** The first pass: how many bytes the encoded string takes. */
    static method CountEncoded(s: Bytes, e: Encoding) returns (n: nat)
      ensures n == |Encode(e, s)|
    {
      n := 0;
      for i := 0 to |s|
        invariant n == |Encode(e, s[..i])|
      {
        EncodeNext(e, s, i);
        if Marked(e, s[i]) {
          n := n + match e
                   case RelUri => 3
                   case RelUriPart => 3
                   case Html => 6
                   case MinimalXml => 6
                   case HttpHeader => 2
                   case Hex => 2;
        } else {
          n := n + 1;
        }
      }
      assert s[..|s|] == s;
    }

    static method WriteTwo(p: array<byte>, at: nat, a: byte, b: byte)
      requires at + 2 <= p.Length
      modifies p
      ensures p[at..at + 2] == [a, b] && p[..at] == old(p[..at])
    {
      p[at], p[at + 1] := a, b;
    }

    /** Writes a percent sign and two digits. */
    static method WriteEscape(p: array<byte>, at: nat, x: byte)
      requires at + 3 <= p.Length
      modifies p
      ensures p[at..at + 3] == [PERCENT, HexDigit(x / 16), HexDigit(x % 16)] && p[..at] == old(p[..at])
    {
      p[at], p[at + 1], p[at + 2] := PERCENT, HexDigit(x / 16), HexDigit(x % 16);
    }

    /** Writes a numeric character reference. */
    static method WriteReference(p: array<byte>, at: nat, x: byte)
      requires at + 6 <= p.Length
      modifies p
      ensures p[at..at + 6] == ['&' as int, '#' as int, 'x' as int, HexDigit(x / 16), HexDigit(x % 16), ';' as int]
      ensures p[..at] == old(p[..at])
    {
      p[at], p[at + 1], p[at + 2] := '&' as int, '#' as int, 'x' as int;
      p[at + 3], p[at + 4], p[at + 5] := HexDigit(x / 16), HexDigit(x % 16), ';' as int;
    }

    /** Writes one encoded byte from position at on. */
    static method WriteByte(p: array<byte>, at: nat, x: byte, e: Encoding) returns (n: nat)
      requires at + |EncodeByte(e, x)| <= p.Length
      modifies p
      ensures n == |EncodeByte(e, x)| && p[..at + n] == old(p[..at]) + EncodeByte(e, x)
    {
      hide HexDigit, Marked;
      ghost var before := p[..at];
      if Marked(e, x) {
        match e {
          case RelUri =>
            WriteEscape(p, at, x);
            n := 3;
          case RelUriPart =>
            WriteEscape(p, at, x);
            n := 3;
          case Html =>
            WriteReference(p, at, x);
            n := 6;
          case MinimalXml =>
            WriteReference(p, at, x);
            n := 6;
          case Hex =>
            WriteTwo(p, at, HexDigit(x / 16), HexDigit(x % 16));
            n := 2;
          case HttpHeader =>
            WriteTwo(p, at, x, 9);
            n := 2;
        }
      } else {
        p[at] := x;
        n := 1;
      }
      assert p[..at] == before;
      assert p[at..at + n] == EncodeByte(e, x);
      assert p[..at + n] == p[..at] + p[at..at + n];
    }

    /** The second pass: writes the encoded string from position at on. */
    static method WriteEncoded(p: array<byte>, at: nat, s: Bytes, e: Encoding) returns (n: nat)
      requires at + |Encode(e, s)| <= p.Length
      modifies p
      ensures n == |Encode(e, s)| && p[..at + n] == old(p[..at]) + Encode(e, s)
    {
      hide Encode, EncodeByte;
      n := 0;
      EncodeNothing(e, s);
      ghost var was := p[..at];
      for i := 0 to |s|
        invariant n == |Encode(e, s[..i])| <= |Encode(e, s)| && p[..at + n] == was + Encode(e, s[..i])
      {
        EncodeNext(e, s, i);
        Associative(was, Encode(e, s[..i]), EncodeByte(e, s[i]));
        var k := WriteByte(p, at + n, s[i], e);
        n := n + k;
      }
      assert s[..|s|] == s;
    }

    /** Appends an encoded string; the room that the first pass counted is just filled. */
    method AppendStringEncoded(s: Bytes, e: Encoding)
      requires Valid()
      modifies this, ptr
      ensures Valid() && Content() == old(Content()) + Encode(e, s)
      ensures ptr == old(ptr) || fresh(ptr)
    {
      if |s| == 0 {
        return;
      }
      hide Encode;
      ghost var was, all := Content(), ptr[..used];
      assert was == all[..used - 1];
      var room := CountEncoded(s, e);
      PrepareAppend(room);
      assert ptr[..used - 1] == was by { assert ptr[..used - 1] == ptr[..used][..used - 1]; }
      var n := WriteEncoded(ptr, used - 1, s, e);
      ghost var content := was + Encode(e, s);
      ptr[used + n - 1] := 0;
      used := used + n;
      assert ptr[..used - 1] == content;
    }

    /** What is decoded at src, and how many characters it takes. */
    static method DecodeOne(p: array<byte>, src: nat, query: bool, ghost t: Bytes) returns (x: byte, n: nat)
      requires t != [] && src + |t| < p.Length && p[src + |t|] == 0
      requires forall k | 0 <= k < |t| :: p[src + k] == t[k] && t[k] != 0
      ensures 0 < n <= |t| && Decode(t, query) == [x] + Decode(t[n..], query)
    {
      n := 1;
      x := p[src];
      assert x == p[src + 0] == t[0];
      if query && p[src] == PLUS {
        x := SPACE;
      } else if p[src] == PERCENT {
        var high := Hex2Int(p[src + 1]);
        Hex2IntExact(p[src + 1]);
        if high != 0xFF {
          assert p[src + 1] == t[1];
          var low := Hex2Int(p[src + 2]);
          Hex2IntExact(p[src + 2]);
          if low != 0xFF {
            assert p[src + 2] == t[2];
            x := 16 * high + low;
            if x < 32 || x == 127 {
              x := UNDERSCORE;
            }
            n := 3;
          }
        }
      }
    }

    /** Decodes a URL in place, up to the first zero; what is written is never ahead of what is read. */
    method UrlDecode(query: bool, ghost s: Bytes)
      requires Valid() && |s| < used && ptr[|s|] == 0 && forall k | 0 <= k < |s| :: ptr[k] == s[k] && s[k] != 0
      modifies this`used, ptr
      ensures Valid() && Content() == Decode(s, query)
    {
      hide Decode;
      var src, dst := 0, 0;
      assert s[0..] == s && ptr[..0] == [];
      while ptr[src] != 0
        invariant dst <= src <= |s| < ptr.Length && ptr == old(ptr)
        invariant ptr[|s|] == 0 && forall k | src <= k < |s| :: ptr[k] == s[k]
        invariant ptr[..dst] + Decode(s[src..], query) == Decode(s, query)
        decreases |s| - src
      {
        ghost var done := ptr[..dst];
        var x, n := DecodeOne(ptr, src, query, s[src..]);
        ptr[dst] := x;
        assert ptr[..dst + 1] == done + [x];
        assert s[src..][n..] == s[src + n..];
        Associative(done, [x], Decode(s[src + n..], query));
        src, dst := src + n, dst + 1;
      }
      assert src == |s| && s[src..] == [];
      DecodeNothing(query);
      ghost var done := ptr[..dst];
      ptr[dst] := 0;
      assert ptr[..dst] == done;
      used := dst + 1;
    }
  }

  /** What a relative-URI encoding produces can be read up to its end: it has no zero. */
  lemma {:induction false} EncodedHasNoZero(e: Encoding, s: Bytes)
    requires e == RelUri || e == RelUriPart
    ensures forall k | 0 <= k < |Encode(e, s)| :: Encode(e, s)[k] != 0
  {
    if s == [] {
    } else {
      EncodedHasNoZero(e, s[1..]);
    }
  }

  /** The round trip in a buffer: what was appended to an empty one, encoded, is decoded in place. */
  method EncodeAndDecode(b: Buffer, s: Bytes, e: Encoding, query: bool)
    requires b.Valid() && b.Content() == [] && (e == RelUri || e == RelUriPart)
    modifies b, b.ptr
    ensures b.Valid() && b.Content() == Sanitized(s)
  {
    hide Encode, Decode, Sanitized;
    b.AppendStringEncoded(s, e);
    ghost var u := b.Content();
    assert u == Encode(e, s);
    EncodedHasNoZero(e, s);
    RoundTrip(e, s, query);
    assert forall k | 0 <= k < |u| :: b.ptr[k] == u[k];
    b.UrlDecode(query, u);
  }
}
