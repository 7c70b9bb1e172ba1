/**
 Name encodings (zip_utf-8.c): telling ASCII, UTF-8 and code page 437 apart, and
 converting code page 437 to UTF-8 (section 3 of RFC 3629).
 */
module Encoding {
  import opened Bytes

  datatype Encoding = Unknown | Ascii | Utf8Known | Utf8Guessed | Cp437

  /** A name or comment; the empty string stands for the original's null pointer. */
  datatype ZipString = ZipString(raw: seq<byte>, enc: Encoding)

  predicate Printable(b: byte) {
    31 < b < 128 || b == 13 || b == 10 || b == 9
  }

  /** How many continuation bytes a lead byte announces; 0 if it is not a lead byte. */
  function Continuations(b: byte): nat {
    if b / 32 == 6 then 1 else if b / 16 == 14 then 2 else if b / 8 == 30 then 3 else 0
  }

  predicate Continues(b: byte) {
    b / 64 == 2
  }

  /** The scan from position `i`, `enc` being the verdict on what precedes. */
  function ScanFrom(s: seq<byte>, i: nat, enc: Encoding): Encoding
    requires i <= |s|
    decreases |s| - i
  {
    if i == |s| then enc
    else if Printable(s[i]) then ScanFrom(s, i + 1, enc)
    else
      var n := Continuations(s[i]);
      if n == 0 || i + n >= |s| || !(forall j :: i < j <= i + n ==> Continues(s[j])) then Cp437
      else ScanFrom(s, i + n + 1, Utf8Guessed)
  }

  function Scan(s: seq<byte>): Encoding {
    ScanFrom(s, 0, Ascii)
  }

  /** What is known about a string: its recorded encoding, or else the scan's verdict. */
  function EncodingOf(s: ZipString): Encoding {
    if s.raw == [] then Ascii else if s.enc != Unknown then s.enc else Scan(s.raw)
  }

  /** Recorded encodings come from the scan, "known" being a promoted guess. */
  predicate Coherent(s: ZipString) {
    s.enc == Unknown || s.enc == Scan(s.raw) || (s.enc == Utf8Known && Scan(s.raw) == Utf8Guessed)
  }

  datatype Verdict = Error | Is(enc: Encoding)

  /** `_zip_guess_encoding`: the encoding to record, and the verdict returned. */
  function Guess(s: ZipString, expected: Encoding): (Encoding, Verdict) {
    if s.raw == [] then (s.enc, Is(Ascii))
    else
      var found := EncodingOf(s);
      var enc := if expected == Utf8Known && found == Utf8Guessed then Utf8Known else found;
      (enc, if expected != Unknown && expected != enc && enc != Ascii then Error else Is(enc))
  }

  method GuessEncoding(s: ZipString, expected: Encoding) returns (recorded: Encoding, verdict: Verdict)
    ensures (recorded, verdict) == Guess(s, expected)
  {
    if s.raw == [] {
      return s.enc, Is(Ascii);
    }
    var enc := s.enc;
    if enc == Unknown {
      enc := Ascii;
      var i := 0;
      while i < |s.raw|
        invariant 0 <= i <= |s.raw| && ScanFrom(s.raw, i, enc) == Scan(s.raw)
      {
        if Printable(s.raw[i]) {
          i := i + 1;
        } else {
          var n := Continuations(s.raw[i]);
          if n == 0 || i + n >= |s.raw| {
            enc := Cp437;
            break;
          }
          var j := 1;
          while j <= n && Continues(s.raw[i + j])
            invariant 1 <= j <= n + 1 && forall k :: i < k < i + j ==> Continues(s.raw[k])
          {
            j := j + 1;
          }
          if j <= n {
            enc := Cp437;
            break;
          }
          enc, i := Utf8Guessed, i + n + 1;
        }
      }
    }
    if expected == Utf8Known && enc == Utf8Guessed {
      enc := Utf8Known;
    }
    if expected != Unknown && expected != enc && enc != Ascii {
      return enc, Error;
    }
    return enc, Is(enc);
  }

  // ----- What the scan accepts -----

  /** A printable byte, or a lead byte with the continuation bytes it announces. */
  predicate Group(g: seq<byte>) {
    |g| > 0 &&
    if |g| == 1 then Printable(g[0])
    else Continuations(g[0]) == |g| - 1 && forall j :: 1 <= j < |g| ==> Continues(g[j])
  }

  function Joined(gs: seq<seq<byte>>): seq<byte> {
    if gs == [] then [] else gs[0] + Joined(gs[1..])
  }

  predicate AllGroups(gs: seq<seq<byte>>) {
    forall g :: g in gs ==> Group(g)
  }

  lemma {:induction false} ScanSplits(s: seq<byte>, i: nat, enc: Encoding) returns (gs: seq<seq<byte>>)
    requires i <= |s| && ScanFrom(s, i, enc) != Cp437
    ensures AllGroups(gs) && Joined(gs) == s[i..]
    decreases |s| - i
  {
    if i == |s| {
      gs := [];
    } else {
      var n := if Printable(s[i]) then 0 else Continuations(s[i]);
      var rest := ScanSplits(s, i + n + 1, if n == 0 then enc else Utf8Guessed);
      gs := [s[i..i + n + 1]] + rest;
      assert gs[1..] == rest && s[i..] == s[i..i + n + 1] + s[i + n + 1..];
    }
  }

  lemma {:induction false} ScanJoined(gs: seq<seq<byte>>, s: seq<byte>, i: nat, enc: Encoding)
    requires AllGroups(gs) && enc != Cp437 && enc != Unknown
    requires i <= |s| && s[i..] == Joined(gs)
    ensures ScanFrom(s, i, enc) != Cp437
    decreases |gs|
  {
    if gs != [] {
      var g := gs[0];
      assert g in gs && s[i..i + |g|] == g && s[i + |g|..] == Joined(gs[1..]);
      assert forall j :: 0 <= j < |g| ==> s[i + j] == g[j];
      assert forall j :: i < j < i + |g| ==> s[j] == g[j - i];
      ScanJoined(gs[1..], s, i + |g|, if |g| == 1 then enc else Utf8Guessed);
    }
  }

  /** The classifier accepts exactly the strings built of such groups. */
  lemma {:induction false} ScanAccepts(s: seq<byte>)
    ensures Scan(s) != Cp437 <==> exists gs :: AllGroups(gs) && Joined(gs) == s
  {
    assert s[0..] == s;
    if Scan(s) != Cp437 {
      var gs := ScanSplits(s, 0, Ascii);
    }
    if gs :| AllGroups(gs) && Joined(gs) == s {
      ScanJoined(gs, s, 0, Ascii);
    }
  }

  lemma {:induction false} ScanAscii(s: seq<byte>, i: nat)
    requires i <= |s|
    ensures ScanFrom(s, i, Utf8Guessed) in {Utf8Guessed, Cp437}
    ensures ScanFrom(s, i, Ascii) == Ascii <==> forall j :: i <= j < |s| ==> Printable(s[j])
    decreases |s| - i
  {
    if i < |s| {
      if Printable(s[i]) {
        ScanAscii(s, i + 1);
      } else if i + Continuations(s[i]) < |s| {
        ScanAscii(s, i + Continuations(s[i]) + 1);
      }
    }
  }

  // ----- UTF-8 -----

  function Utf8Length(c: nat): nat {
    if c < 0x80 then 1 else if c < 0x800 then 2 else if c < 0x1_0000 then 3 else 4
  }

  function Utf8(c: nat): (b: seq<byte>)
    requires c < 0x20_0000
    ensures |b| == Utf8Length(c)
  {
    if c < 0x80 then [c]
    else if c < 0x800 then [0xc0 + c / 64, 0x80 + c % 64]
    else if c < 0x1_0000 then [0xe0 + c / 4096, 0x80 + c / 64 % 64, 0x80 + c % 64]
    else [0xf0 + c / 262144, 0x80 + c / 4096 % 64, 0x80 + c / 64 % 64, 0x80 + c % 64]
  }

  /** The code points a UTF-8 string denotes, read off the bit layout of RFC 3629. */
  function Decode(s: seq<byte>): seq<nat> {
    if s == [] then []
    else
      var n := Continuations(s[0]);
      if n == 0 || n >= |s| then [s[0] as nat] + Decode(s[1..])
      else
        var c: nat :=
          if n == 1 then AddBits(s[0] % 32, s[1])
          else if n == 2 then AddBits(AddBits(s[0] % 16, s[1]), s[2])
          else AddBits(AddBits(AddBits(s[0] % 8, s[1]), s[2]), s[3]);
        [c] + Decode(s[n + 1..])
  }

  /** Appends the six value bits of a continuation byte. */
  function AddBits(high: nat, b: byte): nat {
    high * 64 + b % 64
  }

  lemma {:induction false} AddBitsSplits(c: nat)
    ensures AddBits(c / 64, 0x80 + c % 64) == c
    ensures c / 64 / 64 == c / 4096 && c / 4096 / 64 == c / 262144
  {}

  lemma {:induction false} DecodeOne(c: nat, rest: seq<byte>)
    requires c < 0x20_0000
    ensures Decode(Utf8(c) + rest) == [c] + Decode(rest)
  {
    var s := Utf8(c) + rest;
    var n := Utf8Length(c) - 1;
    assert s[n + 1..] == rest;
    AddBitsSplits(c);
    AddBitsSplits(c / 64);
    AddBitsSplits(c / 4096);
    if n == 1 {
      assert Continuations(s[0]) == 1;
    } else if n == 2 {
      assert Continuations(s[0]) == 2;
    } else if n == 3 {
      assert Continuations(s[0]) == 3;
    }
  }

  // ----- Code page 437 -----

  function ControlPoint(b: byte): (c: nat)
    requires b < 0x20
    ensures if b == 0 then c == 0 else 0xa7 <= c < 0x1_0000
    ensures ByteOf(c) == b
  {
    match b
    case 0x00 => 0x0000 case 0x01 => 0x263a case 0x02 => 0x263b case 0x03 => 0x2665 case 0x04 => 0x2666 case 0x05 => 0x2663 case 0x06 => 0x2660 case 0x07 => 0x2022
    case 0x08 => 0x25d8 case 0x09 => 0x25cb case 0x0a => 0x25d9 case 0x0b => 0x2642 case 0x0c => 0x2640 case 0x0d => 0x266a case 0x0e => 0x266b case 0x0f => 0x263c
    case 0x10 => 0x25ba case 0x11 => 0x25c4 case 0x12 => 0x2195 case 0x13 => 0x203c case 0x14 => 0x00b6 case 0x15 => 0x00a7 case 0x16 => 0x25ac case 0x17 => 0x21a8
    case 0x18 => 0x2191 case 0x19 => 0x2193 case 0x1a => 0x2192 case 0x1b => 0x2190 case 0x1c => 0x221f case 0x1d => 0x2194 case 0x1e => 0x25b2 case _ => 0x25bc
  }

  function LatinPoint(b: byte): (c: nat)
    requires 0x80 <= b < 0xc0
    ensures 0xa0 <= c < 0x1_0000
    ensures ByteOf(c) == b
  {
    match b
    case 0x80 => 0x00c7 case 0x81 => 0x00fc case 0x82 => 0x00e9 case 0x83 => 0x00e2 case 0x84 => 0x00e4 case 0x85 => 0x00e0 case 0x86 => 0x00e5 case 0x87 => 0x00e7
    case 0x88 => 0x00ea case 0x89 => 0x00eb case 0x8a => 0x00e8 case 0x8b => 0x00ef case 0x8c => 0x00ee case 0x8d => 0x00ec case 0x8e => 0x00c4 case 0x8f => 0x00c5
    case 0x90 => 0x00c9 case 0x91 => 0x00e6 case 0x92 => 0x00c6 case 0x93 => 0x00f4 case 0x94 => 0x00f6 case 0x95 => 0x00f2 case 0x96 => 0x00fb case 0x97 => 0x00f9
    case 0x98 => 0x00ff case 0x99 => 0x00d6 case 0x9a => 0x00dc case 0x9b => 0x00a2 case 0x9c => 0x00a3 case 0x9d => 0x00a5 case 0x9e => 0x20a7 case 0x9f => 0x0192
    case 0xa0 => 0x00e1 case 0xa1 => 0x00ed case 0xa2 => 0x00f3 case 0xa3 => 0x00fa case 0xa4 => 0x00f1 case 0xa5 => 0x00d1 case 0xa6 => 0x00aa case 0xa7 => 0x00ba
    case 0xa8 => 0x00bf case 0xa9 => 0x2310 case 0xaa => 0x00ac case 0xab => 0x00bd case 0xac => 0x00bc case 0xad => 0x00a1 case 0xae => 0x00ab case 0xaf => 0x00bb
    case 0xb0 => 0x2591 case 0xb1 => 0x2592 case 0xb2 => 0x2593 case 0xb3 => 0x2502 case 0xb4 => 0x2524 case 0xb5 => 0x2561 case 0xb6 => 0x2562 case 0xb7 => 0x2556
    case 0xb8 => 0x2555 case 0xb9 => 0x2563 case 0xba => 0x2551 case 0xbb => 0x2557 case 0xbc => 0x255d case 0xbd => 0x255c case 0xbe => 0x255b case _ => 0x2510
  }

  function BoxPoint(b: byte): (c: nat)
    requires 0xc0 <= b
    ensures 0xa0 <= c < 0x1_0000
    ensures ByteOf(c) == b
  {
    match b
    case 0xc0 => 0x2514 case 0xc1 => 0x2534 case 0xc2 => 0x252c case 0xc3 => 0x251c case 0xc4 => 0x2500 case 0xc5 => 0x253c case 0xc6 => 0x255e case 0xc7 => 0x255f
    case 0xc8 => 0x255a case 0xc9 => 0x2554 case 0xca => 0x2569 case 0xcb => 0x2566 case 0xcc => 0x2560 case 0xcd => 0x2550 case 0xce => 0x256c case 0xcf => 0x2567
    case 0xd0 => 0x2568 case 0xd1 => 0x2564 case 0xd2 => 0x2565 case 0xd3 => 0x2559 case 0xd4 => 0x2558 case 0xd5 => 0x2552 case 0xd6 => 0x2553 case 0xd7 => 0x256b
    case 0xd8 => 0x256a case 0xd9 => 0x2518 case 0xda => 0x250c case 0xdb => 0x2588 case 0xdc => 0x2584 case 0xdd => 0x258c case 0xde => 0x2590 case 0xdf => 0x2580
    case 0xe0 => 0x03b1 case 0xe1 => 0x00df case 0xe2 => 0x0393 case 0xe3 => 0x03c0 case 0xe4 => 0x03a3 case 0xe5 => 0x03c3 case 0xe6 => 0x00b5 case 0xe7 => 0x03c4
    case 0xe8 => 0x03a6 case 0xe9 => 0x0398 case 0xea => 0x03a9 case 0xeb => 0x03b4 case 0xec => 0x221e case 0xed => 0x03c6 case 0xee => 0x03b5 case 0xef => 0x2229
    case 0xf0 => 0x2261 case 0xf1 => 0x00b1 case 0xf2 => 0x2265 case 0xf3 => 0x2264 case 0xf4 => 0x2320 case 0xf5 => 0x2321 case 0xf6 => 0x00f7 case 0xf7 => 0x2248
    case 0xf8 => 0x00b0 case 0xf9 => 0x2219 case 0xfa => 0x00b7 case 0xfb => 0x221a case 0xfc => 0x207f case 0xfd => 0x00b2 case 0xfe => 0x25a0 case _ => 0x00a0
  }

  /** The Unicode code point of a code page 437 byte. */
  function CodePoint(b: byte): nat {
    if b < 0x20 then ControlPoint(b) else if b < 0x7f then b else if b == 0x7f then 0x2302
    else if b < 0xc0 then LatinPoint(b) else BoxPoint(b)
  }

  function CodePoints(s: seq<byte>): seq<nat> {
    if s == [] then [] else [CodePoint(s[0])] + CodePoints(s[1..])
  }

  lemma {:induction false} CodePointRange(b: byte)
    ensures CodePoint(b) < 0x1_0000
    ensures b == 0 <==> CodePoint(b) == 0
    ensures b != 0 ==> CodePoint(b) > 31 && CodePoint(b) != 127
  {}

  function ToUtf8(s: seq<byte>): seq<byte> {
    if s == [] then [] else CodePointRange(s[0]); Utf8(CodePoint(s[0])) + ToUtf8(s[1..])
  }

  lemma {:induction false} ToUtf8Step(s: seq<byte>, i: nat)
    requires i < |s|
    ensures CodePoint(s[i]) < 0x1_0000
    ensures ToUtf8(s[i..]) == Utf8(CodePoint(s[i])) + ToUtf8(s[i + 1..])
  {
    CodePointRange(s[i]);
    assert s[i..][1..] == s[i + 1..];
  }

  /** The first pass: the converted length, plus one for a final NUL. */
  method ConvertedLength(s: seq<byte>) returns (length: nat)
    ensures length == |ToUtf8(s)| + 1
  {
    hide CodePoint, ToUtf8;
    length := 1;
    assert s[0..] == s;
    for i := 0 to |s|
      invariant length + |ToUtf8(s[i..])| == 1 + |ToUtf8(s)|
    {
      ToUtf8Step(s, i);
      length := length + Utf8Length(CodePoint(s[i]));
    }
    ToUtf8End(s);
  }

  lemma {:induction false} ToUtf8End(s: seq<byte>)
    ensures ToUtf8(s[|s|..]) == []
  {}

  /** The second pass: fills a buffer of that length. */
  method Cp437ToUtf8(s: seq<byte>) returns (converted: seq<byte>)
    ensures converted == ToUtf8(s)
  {
    hide CodePoint, ToUtf8, Utf8;
    ToUtf8End(s);
    if s == [] {
      return [];
    }
    var length := ConvertedLength(s);
    var buffer := new byte[length](_ => 0);
    var offset := 0;
    assert s[0..] == s;
    for i := 0 to |s|
      invariant 0 <= offset && offset + |ToUtf8(s[i..])| == length - 1
      invariant buffer[..offset] + ToUtf8(s[i..]) == ToUtf8(s)
    {
      ToUtf8Step(s, i);
      var utf8 := Utf8(CodePoint(s[i]));
      ghost var before := buffer[..offset];
      forall k | 0 <= k < |utf8| {
        buffer[offset + k] := utf8[k];
      }
      assert buffer[..offset + |utf8|] == before + utf8;
      offset := offset + |utf8|;
    }
    buffer[length - 1] := 0;
    converted := buffer[..length - 1];
  }

  /** Decoding the converted string gives back the table's code points. */
  lemma {:induction false} ConversionIsExact(s: seq<byte>)
    ensures Decode(ToUtf8(s)) == CodePoints(s)
  {
    if s != [] {
      CodePointRange(s[0]);
      DecodeOne(CodePoint(s[0]), ToUtf8(s[1..]));
      ConversionIsExact(s[1..]);
    }
  }

  /** Code page 437 read backwards; together with the next lemma it shows that the table has no duplicates. */
  function ByteOf(c: nat): byte {
    if c == 0 || 0x20 <= c < 0x7f then c else
    if c < 0x221a then (
      if c < 0x00ec then (
        if c < 0x00c4 then (
          if c < 0x00b1 then (
            match c
            case 0x00a0 => 0xff case 0x00a1 => 0xad case 0x00a2 => 0x9b case 0x00a3 => 0x9c case 0x00a5 => 0x9d
            case 0x00a7 => 0x15 case 0x00aa => 0xa6 case 0x00ab => 0xae case 0x00ac => 0xaa case 0x00b0 => 0xf8
            case _ => 0
          ) else (
            match c
            case 0x00b1 => 0xf1 case 0x00b2 => 0xfd case 0x00b5 => 0xe6 case 0x00b6 => 0x14 case 0x00b7 => 0xfa
            case 0x00ba => 0xa7 case 0x00bb => 0xaf case 0x00bc => 0xac case 0x00bd => 0xab case 0x00bf => 0xa8
            case _ => 0
          )
        ) else (
          if c < 0x00e1 then (
            match c
            case 0x00c4 => 0x8e case 0x00c5 => 0x8f case 0x00c6 => 0x92 case 0x00c7 => 0x80 case 0x00c9 => 0x90
            case 0x00d1 => 0xa5 case 0x00d6 => 0x99 case 0x00dc => 0x9a case 0x00df => 0xe1 case 0x00e0 => 0x85
            case _ => 0
          ) else (
            match c
            case 0x00e1 => 0xa0 case 0x00e2 => 0x83 case 0x00e4 => 0x84 case 0x00e5 => 0x86 case 0x00e6 => 0x91
            case 0x00e7 => 0x87 case 0x00e8 => 0x8a case 0x00e9 => 0x82 case 0x00ea => 0x88 case 0x00eb => 0x89
            case _ => 0
          )
        )
      ) else (
        if c < 0x03a9 then (
          if c < 0x00f9 then (
            match c
            case 0x00ec => 0x8d case 0x00ed => 0xa1 case 0x00ee => 0x8c case 0x00ef => 0x8b case 0x00f1 => 0xa4
            case 0x00f2 => 0x95 case 0x00f3 => 0xa2 case 0x00f4 => 0x93 case 0x00f6 => 0x94 case 0x00f7 => 0xf6
            case _ => 0
          ) else (
            match c
            case 0x00f9 => 0x97 case 0x00fa => 0xa3 case 0x00fb => 0x96 case 0x00fc => 0x81 case 0x00ff => 0x98
            case 0x0192 => 0x9f case 0x0393 => 0xe2 case 0x0398 => 0xe9 case 0x03a3 => 0xe4 case 0x03a6 => 0xe8
            case _ => 0
          )
        ) else (
          if c < 0x207f then (
            match c
            case 0x03a9 => 0xea case 0x03b1 => 0xe0 case 0x03b4 => 0xeb case 0x03b5 => 0xee case 0x03c0 => 0xe3
            case 0x03c3 => 0xe5 case 0x03c4 => 0xe7 case 0x03c6 => 0xed case 0x2022 => 0x07 case 0x203c => 0x13
            case _ => 0
          ) else (
            match c
            case 0x207f => 0xfc case 0x20a7 => 0x9e case 0x2190 => 0x1b case 0x2191 => 0x18 case 0x2192 => 0x1a
            case 0x2193 => 0x19 case 0x2194 => 0x1d case 0x2195 => 0x12 case 0x21a8 => 0x17 case 0x2219 => 0xf9
            case _ => 0
          )
        )
      )
    ) else (
      if c < 0x2561 then (
        if c < 0x252c then (
          if c < 0x2320 then (
            match c
            case 0x221a => 0xfb case 0x221e => 0xec case 0x221f => 0x1c case 0x2229 => 0xef case 0x2248 => 0xf7
            case 0x2261 => 0xf0 case 0x2264 => 0xf3 case 0x2265 => 0xf2 case 0x2302 => 0x7f case 0x2310 => 0xa9
            case _ => 0
          ) else (
            match c
            case 0x2320 => 0xf4 case 0x2321 => 0xf5 case 0x2500 => 0xc4 case 0x2502 => 0xb3 case 0x250c => 0xda
            case 0x2510 => 0xbf case 0x2514 => 0xc0 case 0x2518 => 0xd9 case 0x251c => 0xc3 case 0x2524 => 0xb4
            case _ => 0
          )
        ) else (
          if c < 0x2557 then (
            match c
            case 0x252c => 0xc2 case 0x2534 => 0xc1 case 0x253c => 0xc5 case 0x2550 => 0xcd case 0x2551 => 0xba
            case 0x2552 => 0xd5 case 0x2553 => 0xd6 case 0x2554 => 0xc9 case 0x2555 => 0xb8 case 0x2556 => 0xb7
            case _ => 0
          ) else (
            match c
            case 0x2557 => 0xbb case 0x2558 => 0xd4 case 0x2559 => 0xd3 case 0x255a => 0xc8 case 0x255b => 0xbe
            case 0x255c => 0xbd case 0x255d => 0xbc case 0x255e => 0xc6 case 0x255f => 0xc7 case 0x2560 => 0xcc
            case _ => 0
          )
        )
      ) else (
        if c < 0x25a0 then (
          if c < 0x256b then (
            match c
            case 0x2561 => 0xb5 case 0x2562 => 0xb6 case 0x2563 => 0xb9 case 0x2564 => 0xd1 case 0x2565 => 0xd2
            case 0x2566 => 0xcb case 0x2567 => 0xcf case 0x2568 => 0xd0 case 0x2569 => 0xca case 0x256a => 0xd8
            case _ => 0
          ) else (
            match c
            case 0x256b => 0xd7 case 0x256c => 0xce case 0x2580 => 0xdf case 0x2584 => 0xdc case 0x2588 => 0xdb
            case 0x258c => 0xdd case 0x2590 => 0xde case 0x2591 => 0xb0 case 0x2592 => 0xb1 case 0x2593 => 0xb2
            case _ => 0
          )
        ) else (
          if c < 0x263b then (
            match c
            case 0x25a0 => 0xfe case 0x25ac => 0x16 case 0x25b2 => 0x1e case 0x25ba => 0x10 case 0x25bc => 0x1f
            case 0x25c4 => 0x11 case 0x25cb => 0x09 case 0x25d8 => 0x08 case 0x25d9 => 0x0a case 0x263a => 0x01
            case _ => 0
          ) else (
            match c
            case 0x263b => 0x02 case 0x263c => 0x0f case 0x2640 => 0x0c case 0x2642 => 0x0b case 0x2660 => 0x06
            case 0x2663 => 0x05 case 0x2665 => 0x03 case 0x2666 => 0x04 case 0x266a => 0x0d case 0x266b => 0x0e
            case _ => 0
          )
        )
      )
    )
  }

  lemma {:induction false} TableIsInjective(b: byte)
    ensures ByteOf(CodePoint(b)) == b
  {}

  /** Distinct inputs have distinct conversions. */
  lemma {:induction false} ConversionIsInjective(s: seq<byte>, t: seq<byte>)
    requires ToUtf8(s) == ToUtf8(t)
    ensures s == t
  {
    ConversionIsExact(s);
    ConversionIsExact(t);
    CodePointsInjective(s, t);
  }

  lemma {:induction false} CodePointsInjective(s: seq<byte>, t: seq<byte>)
    requires CodePoints(s) == CodePoints(t)
    ensures s == t
  {
    if s != [] && t != [] {
      assert CodePoints(s)[0] == CodePoints(t)[0] && CodePoints(s)[1..] == CodePoints(t)[1..];
      TableIsInjective(s[0]);
      TableIsInjective(t[0]);
      CodePointsInjective(s[1..], t[1..]);
    }
  }

  lemma {:induction false} ConvertedGroups(s: seq<byte>) returns (gs: seq<seq<byte>>)
    requires 0 !in s
    ensures AllGroups(gs) && Joined(gs) == ToUtf8(s)
  {
    if s == [] {
      gs := [];
    } else {
      CodePointRange(s[0]);
      var rest := ConvertedGroups(s[1..]);
      gs := [Utf8(CodePoint(s[0]))] + rest;
      assert gs[1..] == rest;
    }
  }

  lemma {:induction false} NulSurvives(s: seq<byte>)
    requires 0 in s
    ensures 0 in ToUtf8(s)
  {
    CodePointRange(s[0]);
    assert Utf8(CodePoint(s[0])) + ToUtf8(s[1..]) == ToUtf8(s);
    if s[0] == 0 {
      assert ToUtf8(s)[0] == 0;
    } else {
      NulSurvives(s[1..]);
    }
  }

  lemma {:induction false} NulIsRejected(s: seq<byte>, i: nat, enc: Encoding)
    requires i <= |s| && 0 in s[i..]
    ensures ScanFrom(s, i, enc) == Cp437
    decreases |s| - i
  {
    var n := if Printable(s[i]) then 0 else Continuations(s[i]);
    if Printable(s[i]) || (n > 0 && i + n < |s| && forall j :: i < j <= i + n ==> Continues(s[j])) {
      assert s[i + n + 1..] == s[i..][n + 1..];
      assert forall j :: i <= j <= i + n ==> s[j] != 0;
      var k :| 0 <= k < |s[i..]| && s[i..][k] == 0;
      assert s[i + k] == 0 && s[i + n + 1..][k - n - 1] == 0;
      NulIsRejected(s, i + n + 1, if n == 0 then enc else Utf8Guessed);
    }
  }

  /** The converted string is classified as ASCII or UTF-8 exactly when the input has no NUL. */
  lemma {:induction false} ConversionIsRecognised(s: seq<byte>)
    ensures Scan(ToUtf8(s)) != Cp437 <==> 0 !in s
  {
    if 0 in s {
      NulSurvives(s);
      assert ToUtf8(s)[0..] == ToUtf8(s);
      NulIsRejected(ToUtf8(s), 0, Ascii);
    } else {
      var gs := ConvertedGroups(s);
      ScanAccepts(ToUtf8(s));
    }
  }
}
