/**
 The two hand-written base64 codecs (crates/td-crypto/src/passkey.rs, crates/td-net/src/quic.rs), sections 4
 and 5 of RFC 4648. Strings are their UTF-8 bytes; shifts, masks and ors of disjoint bits are written as
 division, remainder and sum.
 */
module Base64 {
  import opened Wrappers
  import opened Bytes

  type Octets = seq<Byte>

  const NEWLINE: Byte := 10
  const PLUS: Byte := 43
  const MINUS: Byte := 45
  const SLASH: Byte := 47
  const PAD: Byte := 61
  const UNDERSCORE: Byte := 95

  /** The character of a six-bit value: A-Z, a-z, 0-9 and two more, the only ones in which the tables differ. */
  function Code(v: nat, url: bool): Byte
    requires v < 64
  {
    if v < 26 then 65 + v
    else if v < 52 then 71 + v
    else if v < 62 then v - 4
    else if v == 62 then if url then MINUS else PLUS
    else if url then UNDERSCORE else SLASH
  }

  function Val(c: Byte): Result<nat, Byte> {
    if 65 <= c <= 90 then Ok(c - 65)
    else if 97 <= c <= 122 then Ok(c - 97 + 26)
    else if 48 <= c <= 57 then Ok(c - 48 + 52)
    else if c == PLUS then Ok(62)
    else if c == SLASH then Ok(63)
    else Err(c)
  }

  // ----- Encoding, three bytes at a time -----

  function Triple(b0: Byte, b1: Byte, b2: Byte): nat {
    (b0 as nat) * 0x1_0000 + (b1 as nat) * 0x100 + b2
  }

  function Sextet(triple: nat, k: nat): (v: nat)
    requires k < 4
    ensures v < 64
  {
    (if k == 0 then triple / 0x4_0000
     else if k == 1 then triple / 0x1000
     else if k == 2 then triple / 0x40
     else triple) % 64
  }

  function Padding(n: nat, url: bool): Octets {
    if url then [] else if n == 1 then [PAD, PAD] else [PAD]
  }

  function Encoded(data: Octets, url: bool): Octets {
    if data == [] then []
    else
      var t := Triple(data[0], if |data| > 1 then data[1] else 0, if |data| > 2 then data[2] else 0);
      var two := [Code(Sextet(t, 0), url), Code(Sextet(t, 1), url)];
      if |data| == 1 then two + Padding(1, url)
      else if |data| == 2 then two + [Code(Sextet(t, 2), url)] + Padding(2, url)
      else two + [Code(Sextet(t, 2), url), Code(Sextet(t, 3), url)] + Encoded(data[3..], url)
  }

  method EncodeConfig(data: Octets, url: bool) returns (out: Octets)
    ensures out == Encoded(data, url)
  {
    hide Triple, Sextet, Code, Encoded;
    out := [];
    var i := 0;
    while i < |data|
      invariant out + Encoded(data[if i < |data| then i else |data|..], url) == Encoded(data, url)
    {
      var b0 := data[i];
      var b1: Byte := if i + 1 < |data| then data[i + 1] else 0;
      var b2: Byte := if i + 2 < |data| then data[i + 2] else 0;
      var triple := Triple(b0, b1, b2);
      ghost var before := out;
      out := out + [Code(Sextet(triple, 0), url)];
      out := out + [Code(Sextet(triple, 1), url)];
      if i + 1 < |data| {
        out := out + [Code(Sextet(triple, 2), url)];
      } else if !url {
        out := out + [PAD];
      }
      if i + 2 < |data| {
        out := out + [Code(Sextet(triple, 3), url)];
      } else if !url {
        out := out + [PAD];
      }
      assert out == Appended(before, data, i, url);
      GroupOf(before, data, i, url);
      i := i + 3;
    }
    NothingToEncode(data, url);
  }

  lemma NothingToEncode(data: Octets, url: bool)
    ensures data[0..] == data && Encoded(data[|data|..], url) == []
  {
  }

  /** The text after one more round of the loop. */
  function Appended(before: Octets, data: Octets, i: nat, url: bool): Octets
    requires i < |data|
  {
    var t := Triple(data[i], if i + 1 < |data| then data[i + 1] else 0, if i + 2 < |data| then data[i + 2] else 0);
    before + [Code(Sextet(t, 0), url)] + [Code(Sextet(t, 1), url)]
    + (if i + 1 < |data| then [Code(Sextet(t, 2), url)] else if !url then [PAD] else [])
    + (if i + 2 < |data| then [Code(Sextet(t, 3), url)] else if !url then [PAD] else [])
  }

  lemma {:induction false} GroupOf(before: Octets, data: Octets, i: nat, url: bool)
    requires i < |data|
    ensures Appended(before, data, i, url) + Encoded(data[if i + 3 < |data| then i + 3 else |data|..], url)
         == before + Encoded(data[i..], url)
  {
    hide Triple, Sextet, Code;
    var rest := data[i..];
    if |rest| > 3 {
      assert rest[3..] == data[i + 3..];
    } else {
      assert data[|data|..] == [];
      if |rest| == 3 {
        assert rest[3..] == [];
      }
    }
  }

  /** The second encoder always pads. */
  method Base64Std(data: Octets) returns (out: Octets)
    ensures out == Encoded(data, false)
  {
    hide Triple, Sextet, Code, Encoded;
    out := [];
    var i := 0;
    while i < |data|
      invariant out + Encoded(data[if i < |data| then i else |data|..], false) == Encoded(data, false)
    {
      var chunk := data[i..if i + 3 < |data| then i + 3 else |data|];
      var n := Triple(chunk[0], if |chunk| > 1 then chunk[1] else 0, if |chunk| > 2 then chunk[2] else 0);
      ghost var before := out;
      out := out + [Code(Sextet(n, 0), false)];
      out := out + [Code(Sextet(n, 1), false)];
      out := out + [if |chunk| > 1 then Code(Sextet(n, 2), false) else PAD];
      out := out + [if |chunk| > 2 then Code(Sextet(n, 3), false) else PAD];
      assert out == Appended(before, data, i, false);
      GroupOf(before, data, i, false);
      i := i + 3;
    }
    NothingToEncode(data, false);
  }

  // ----- Decoding, four characters at a time -----

  function WithoutNewlines(s: Octets): Octets {
    if s == [] then [] else (if s[0] == NEWLINE then [] else [s[0]]) + WithoutNewlines(s[1..])
  }

  function ToStandard(s: Octets): (r: Octets)
    ensures |r| == |s|
  {
    if s == [] then [] else
    [if s[0] == MINUS then PLUS else if s[0] == UNDERSCORE then SLASH else s[0]] + ToStandard(s[1..])
  }

  function Padded(s: Octets): Octets {
    if |s| % 4 == 0 then s
    else if |s| % 4 == 3 then s + [PAD]
    else if |s| % 4 == 2 then s + [PAD, PAD]
    else s + [PAD, PAD, PAD]
  }

  function Cleaned(s: Octets, url: bool): Octets {
    Padded(if url then ToStandard(WithoutNewlines(s)) else WithoutNewlines(s))
  }

  function ValOrPad(c: Byte): Result<nat, Byte> {
    if c == PAD then Ok(0) else Val(c)
  }

  function First(a: nat, b: nat): Byte {
    (a * 4 + b / 16) % 0x100
  }

  function Second(b: nat, c: nat): Byte {
    (b * 16 % 0x100 + c / 4) % 0x100
  }

  function Third(c: nat, d: nat): Byte {
    (c * 64 % 0x100 + d) % 0x100
  }

  /** The bytes of one group, or its first bad character. */
  function Quad(c0: Byte, c1: Byte, c2: Byte, c3: Byte): Result<Octets, Byte> {
    var a, b, c, d := Val(c0), Val(c1), ValOrPad(c2), ValOrPad(c3);
    if a.Err? then Err(a.error) else if b.Err? then Err(b.error)
    else if c.Err? then Err(c.error) else if d.Err? then Err(d.error)
    else Ok([First(a.value, b.value)]
            + (if c2 != PAD then [Second(b.value, c.value)] else [])
            + (if c3 != PAD then [Third(c.value, d.value)] else []))
  }

  function Prepended(front: Octets, r: Result<Octets, Byte>): Result<Octets, Byte> {
    if r.Ok? then Ok(front + r.value) else r
  }

  function Groups(s: Octets): Result<Octets, Byte> {
    if |s| < 4 || s[0] == PAD then Ok([])
    else
      var q := Quad(s[0], s[1], s[2], s[3]);
      if q.Err? then q else Prepended(q.value, Groups(s[4..]))
  }

  function Decoded(s: Octets, url: bool): Result<Octets, Byte> {
    Groups(Cleaned(s, url))
  }

  method DecodeConfig(text: Octets, url: bool) returns (r: Result<Octets, Byte>)
    ensures r == Decoded(text, url)
  {
    hide Val, First, Second, Third, WithoutNewlines, ToStandard, Groups, Prepended, Padded;
    var s := WithoutNewlines(text);
    if url {
      s := ToStandard(s);
    }
    ghost var unpadded := s;
    while |s| % 4 != 0
      invariant Padded(s) == Padded(unpadded)
      decreases (4 - |s| % 4) % 4
    {
      PadOnce(s);
      s := s + [PAD];
    }
    NoPadding(s);
    var out: Octets := [];
    var i := 0;
    NothingDecoded(s);
    while i + 3 < |s|
      invariant i <= |s| && Prepended(out, Groups(s[i..])) == Groups(s)
    {
      GroupStep(s, i, out);
      if s[i] == PAD {
        return Ok(out);
      }
      var a := Val(s[i]);
      if a.Err? {
        return Err(a.error);
      }
      var b := Val(s[i + 1]);
      if b.Err? {
        return Err(b.error);
      }
      var c := if s[i + 2] == PAD then Ok(0) else Val(s[i + 2]);
      if c.Err? {
        return Err(c.error);
      }
      var d := if s[i + 3] == PAD then Ok(0) else Val(s[i + 3]);
      if d.Err? {
        return Err(d.error);
      }
      ghost var before := out;
      out := out + [First(a.value, b.value)];
      if s[i + 2] != PAD {
        out := out + [Second(b.value, c.value)];
      }
      if s[i + 3] != PAD {
        out := out + [Third(c.value, d.value)];
      }
      assert out == before + Quad(s[i], s[i + 1], s[i + 2], s[i + 3]).value;
      i := i + 4;
    }
    NoGroupLeft(s, i, out);
    return Ok(out);
  }

  lemma PadOnce(s: Octets)
    requires |s| % 4 != 0
    ensures Padded(s + [PAD]) == Padded(s)
  {
  }

  lemma NoPadding(s: Octets)
    requires |s| % 4 == 0
    ensures Padded(s) == s
  {
  }

  lemma NothingDecoded(s: Octets)
    ensures Prepended([], Groups(s[0..])) == Groups(s)
  {
    assert s[0..] == s;
    if Groups(s).Ok? {
      assert [] + Groups(s).value == Groups(s).value;
    }
  }

  lemma NoGroupLeft(s: Octets, i: nat, out: Octets)
    requires i <= |s| < i + 4
    ensures Prepended(out, Groups(s[i..])) == Ok(out)
  {
    assert out + [] == out;
  }

  lemma GroupStep(s: Octets, i: nat, out: Octets)
    requires i + 3 < |s|
    ensures s[i] == PAD ==> Prepended(out, Groups(s[i..])) == Ok(out)
    ensures s[i] != PAD ==>
              var q := Quad(s[i], s[i + 1], s[i + 2], s[i + 3]);
              Prepended(out, Groups(s[i..]))
              == if q.Err? then q else Prepended(out + q.value, Groups(s[i + 4..]))
  {
    hide Quad;
    assert out + [] == out;
    var rest := s[i..];
    assert rest[0] == s[i] && rest[1] == s[i + 1] && rest[2] == s[i + 2] && rest[3] == s[i + 3];
    assert rest[4..] == s[i + 4..];
    if s[i] != PAD {
      var q := Quad(s[i], s[i + 1], s[i + 2], s[i + 3]);
      if q.Ok? {
        var more := Groups(rest[4..]);
        if more.Ok? {
          assert out + (q.value + more.value) == out + q.value + more.value;
        }
      }
    }
  }

  // ----- Round trips -----

  lemma ValOfCode(v: nat)
    requires v < 64
    ensures Val(Code(v, false)) == Ok(v) && Code(v, false) != PAD && Code(v, false) != NEWLINE
    ensures Code(v, true) != PAD && Code(v, true) != NEWLINE
    ensures Code(v, true) == MINUS || Code(v, true) == UNDERSCORE || Code(v, true) == Code(v, false)
  {
  }

  lemma SextetsOfBytes(b0: Byte, b1: Byte, b2: Byte)
    ensures var t := Triple(b0, b1, b2);
            && Sextet(t, 0) == b0 / 4
            && Sextet(t, 1) == b0 % 4 * 16 + b1 / 16
            && Sextet(t, 2) == b1 % 16 * 4 + b2 / 64
            && Sextet(t, 3) == b2 % 64
  {
    var q0, r0, q1, r1, q2, r2 := b0 / 4, b0 % 4, b1 / 16, b1 % 16, b2 / 64, b2 % 64;
    SextetsOfParts(q0, r0, q1, r1, q2, r2);
  }

  lemma SextetsOfParts(q0: nat, r0: nat, q1: nat, r1: nat, q2: nat, r2: nat)
    requires q0 < 64 && r0 < 4 && q1 < 16 && r1 < 16 && q2 < 4 && r2 < 64
    ensures var t := (4 * q0 + r0) * 0x1_0000 + (16 * q1 + r1) * 0x100 + (64 * q2 + r2);
            && Sextet(t, 0) == q0 && Sextet(t, 1) == r0 * 16 + q1 && Sextet(t, 2) == r1 * 4 + q2 && Sextet(t, 3) == r2
  {
    var t := (4 * q0 + r0) * 0x1_0000 + (16 * q1 + r1) * 0x100 + (64 * q2 + r2);
    By262144(t, q0, r0 * 0x1_0000 + (16 * q1 + r1) * 0x100 + 64 * q2 + r2);
    By64(q0, 0, q0);
    By4096(t, 64 * q0 + 16 * r0 + q1, r1 * 0x100 + 64 * q2 + r2);
    By64(64 * q0 + 16 * r0 + q1, q0, 16 * r0 + q1);
    By64(t, 4096 * q0 + 1024 * r0 + 64 * q1 + 4 * r1 + q2, r2);
    By64(4096 * q0 + 1024 * r0 + 64 * q1 + 4 * r1 + q2, 64 * q0 + 16 * r0 + q1, 4 * r1 + q2);
  }

  lemma By64(n: nat, q: nat, r: nat)
    requires n == q * 64 + r && r < 64
    ensures n / 64 == q && n % 64 == r
  {
  }

  lemma By4096(n: nat, q: nat, r: nat)
    requires n == q * 0x1000 + r && r < 0x1000
    ensures n / 0x1000 == q
  {
  }

  lemma By262144(n: nat, q: nat, r: nat)
    requires n == q * 0x4_0000 + r && r < 0x4_0000
    ensures n / 0x4_0000 == q
  {
  }

  lemma BytesOfSextets(b0: Byte, b1: Byte, b2: Byte)
    ensures First(b0 / 4, b0 % 4 * 16 + b1 / 16) == b0
    ensures Second(b0 % 4 * 16 + b1 / 16, b1 % 16 * 4 + b2 / 64) == b1
    ensures Third(b1 % 16 * 4 + b2 / 64, b2 % 64) == b2
  {
    assert (b0 % 4 * 16 + b1 / 16) / 16 == b0 % 4;
    assert (b0 % 4 * 16 + b1 / 16) * 16 % 0x100 == b1 / 16 * 16;
    assert (b1 % 16 * 4 + b2 / 64) / 4 == b1 % 16;
    assert (b1 % 16 * 4 + b2 / 64) * 64 % 0x100 == b2 / 64 * 64;
  }

  /** One whole group of three bytes. */
  lemma QuadOfTriple(b0: Byte, b1: Byte, b2: Byte)
    ensures var t := Triple(b0, b1, b2);
            Quad(Code(Sextet(t, 0), false), Code(Sextet(t, 1), false),
                 Code(Sextet(t, 2), false), Code(Sextet(t, 3), false)) == Ok([b0, b1, b2])
    ensures var t := Triple(b0, b1, 0);
            Quad(Code(Sextet(t, 0), false), Code(Sextet(t, 1), false), Code(Sextet(t, 2), false), PAD) == Ok([b0, b1])
    ensures var t := Triple(b0, 0, 0);
            Quad(Code(Sextet(t, 0), false), Code(Sextet(t, 1), false), PAD, PAD) == Ok([b0])
  {
    hide Triple, Sextet, First, Second, Third, Code, Val;
    CodesComeBack(b0, b1, b2);
    CodesComeBack(b0, b1, 0);
    CodesComeBack(b0, 0, 0);
    assert [b0] + [b1] + [b2] == [b0, b1, b2] && [b0] + [b1] + [] == [b0, b1] && [b0] + [] + [] == [b0];
  }

  lemma CodesComeBack(b0: Byte, b1: Byte, b2: Byte)
    ensures var t := Triple(b0, b1, b2);
            var a, b, c, d := Sextet(t, 0), Sextet(t, 1), Sextet(t, 2), Sextet(t, 3);
            && Val(Code(a, false)) == Ok(a) && Val(Code(b, false)) == Ok(b)
            && Val(Code(c, false)) == Ok(c) && Val(Code(d, false)) == Ok(d)
            && Code(a, false) != PAD && Code(c, false) != PAD && Code(d, false) != PAD
            && First(a, b) == b0 && Second(b, c) == b1 && Third(c, d) == b2
  {
    var t := Triple(b0, b1, b2);
    SextetsOfBytes(b0, b1, b2);
    BytesOfSextets(b0, b1, b2);
    hide Triple, Sextet, First, Second, Third, Code, Val;
    ValOfCode(Sextet(t, 0));
    ValOfCode(Sextet(t, 1));
    ValOfCode(Sextet(t, 2));
    ValOfCode(Sextet(t, 3));
  }

  lemma GroupsOfFour(c0: Byte, c1: Byte, c2: Byte, c3: Byte, rest: Octets)
    requires c0 != PAD && Quad(c0, c1, c2, c3).Ok?
    ensures Groups([c0, c1, c2, c3] + rest) == Prepended(Quad(c0, c1, c2, c3).value, Groups(rest))
  {
    hide Quad;
    assert ([c0, c1, c2, c3] + rest)[4..] == rest;
  }

  lemma EncodedSplits(data: Octets, url: bool)
    requires |data| >= 3
    ensures Encoded(data, url) == Encoded(data[..3], url) + Encoded(data[3..], url)
  {
    hide Triple, Sextet, Code;
    assert data[..3][3..] == [];
  }

  /** One group, decoded. */
  lemma GroupComesBack(data: Octets, rest: Octets)
    requires 0 < |data| <= 3
    ensures |Encoded(data, false)| == 4 && Groups(Encoded(data, false) + rest) == Prepended(data, Groups(rest))
  {
    hide Triple, Sextet, Code, Quad, Groups;
    var b1: Byte, b2: Byte := if |data| > 1 then data[1] else 0, if |data| > 2 then data[2] else 0;
    var t := Triple(data[0], b1, b2);
    QuadOfTriple(data[0], b1, b2);
    CodesComeBack(data[0], b1, b2);
    var c2 := if |data| > 1 then Code(Sextet(t, 2), false) else PAD;
    var c3 := if |data| > 2 then Code(Sextet(t, 3), false) else PAD;
    GroupsOfFour(Code(Sextet(t, 0), false), Code(Sextet(t, 1), false), c2, c3, rest);
    assert |data| == 3 ==> data[3..] == [] && data == [data[0], data[1], data[2]];
    assert |data| == 2 ==> data == [data[0], data[1]];
    assert |data| == 1 ==> data == [data[0]];
    assert Encoded(data, false) == [Code(Sextet(t, 0), false), Code(Sextet(t, 1), false), c2, c3];
  }

  /** The padded standard encoding decodes to the data it encodes. */
  lemma {:induction false} GroupsOfEncoded(data: Octets)
    ensures Groups(Encoded(data, false)) == Ok(data) && |Encoded(data, false)| % 4 == 0
  {
    hide Groups, Encoded, Prepended;
    NoGroups();
    if |data| > 3 {
      GroupsOfEncoded(data[3..]);
      EncodedSplits(data, false);
      GroupComesBack(data[..3], Encoded(data[3..], false));
      PrependedOk(data[..3], data[3..]);
      assert data == data[..3] + data[3..];
    } else if data != [] {
      GroupComesBack(data, []);
      PrependedOk(data, []);
      assert data + [] == data && Encoded(data, false) + [] == Encoded(data, false);
    }
  }

  lemma NoGroups()
    ensures Groups([]) == Ok([]) && forall url :: Encoded([], url) == []
  {
  }

  lemma PrependedOk(front: Octets, back: Octets)
    ensures Prepended(front, Ok(back)) == Ok(front + back)
  {
  }

  // ----- From the text as written to the text that is decoded -----

  ghost predicate Plain(s: Octets) {
    forall i | 0 <= i < |s| :: s[i] != NEWLINE
  }

  /** A character that only the URL-safe alphabet has. */
  ghost predicate UrlOnly(s: Octets) {
    exists i :: 0 <= i < |s| && (s[i] == MINUS || s[i] == UNDERSCORE)
  }

  lemma {:induction false} PlainIsKept(s: Octets)
    requires Plain(s)
    ensures WithoutNewlines(s) == s
  {
    if s != [] {
      PlainIsKept(s[1..]);
    }
  }

  lemma {:induction false} WithoutNewlinesOfSum(a: Octets, b: Octets)
    ensures WithoutNewlines(a + b) == WithoutNewlines(a) + WithoutNewlines(b)
  {
    if a == [] {
      assert a + b == b;
    } else {
      WithoutNewlinesOfSum(a[1..], b);
      assert (a + b)[1..] == a[1..] + b;
      Associative(if a[0] == NEWLINE then [] else [a[0]], WithoutNewlines(a[1..]), WithoutNewlines(b));
    }
  }

  lemma Associative(a: Octets, b: Octets, c: Octets)
    ensures (a + b) + c == a + (b + c)
  {
  }

  lemma {:induction false} ToStandardAt(s: Octets, i: nat)
    requires i < |s|
    ensures ToStandard(s)[i] == if s[i] == MINUS then PLUS else if s[i] == UNDERSCORE then SLASH else s[i]
  {
    if i > 0 {
      ToStandardAt(s[1..], i - 1);
    }
  }

  lemma ToStandardOfSum(a: Octets, b: Octets)
    ensures ToStandard(a + b) == ToStandard(a) + ToStandard(b)
  {
    forall i | 0 <= i < |a + b| ensures ToStandard(a + b)[i] == (ToStandard(a) + ToStandard(b))[i] {
      ToStandardAt(a + b, i);
      if i < |a| {
        ToStandardAt(a, i);
      } else {
        ToStandardAt(b, i - |a|);
      }
    }
  }

  lemma NothingToReplace(s: Octets)
    requires !UrlOnly(s)
    ensures ToStandard(s) == s
  {
    forall i | 0 <= i < |s| ensures ToStandard(s)[i] == s[i] {
      ToStandardAt(s, i);
    }
  }

  lemma PaddedOfSum(four: Octets, rest: Octets)
    requires |four| == 4
    ensures Padded(four + rest) == four + Padded(rest)
  {
  }

  /** One group in both alphabets. */
  lemma {:induction false} GroupInBoth(data: Octets)
    requires 0 < |data| <= 3
    ensures Plain(Encoded(data, true)) && Plain(Encoded(data, false)) && !UrlOnly(Encoded(data, false))
    ensures |Encoded(data, true)| == |data| + 1
    ensures Padded(ToStandard(Encoded(data, true))) == Encoded(data, false)
  {
    hide Triple, Sextet, Code;
    var b1: Byte, b2: Byte := if |data| > 1 then data[1] else 0, if |data| > 2 then data[2] else 0;
    var t := Triple(data[0], b1, b2);
    CodeInBoth(Sextet(t, 0));
    CodeInBoth(Sextet(t, 1));
    CodeInBoth(Sextet(t, 2));
    CodeInBoth(Sextet(t, 3));
    EncodedGroup(data, true);
    EncodedGroup(data, false);
    var e := Encoded(data, true);
    hide Encoded, ToStandard;
    forall i | 0 <= i < |e| ensures ToStandard(e)[i] == Encoded(data, false)[i] {
      ToStandardAt(e, i);
    }
  }

  lemma EncodedGroup(data: Octets, url: bool)
    requires 0 < |data| <= 3
    ensures var t := Triple(data[0], if |data| > 1 then data[1] else 0, if |data| > 2 then data[2] else 0);
            Encoded(data, url)
            == [Code(Sextet(t, 0), url), Code(Sextet(t, 1), url),
                Code(Sextet(t, 2), url), Code(Sextet(t, 3), url)][..|data| + 1]
               + if |data| == 3 then [] else Padding(|data|, url)
  {
    hide Triple, Sextet, Code;
    assert |data| == 3 ==> data[3..] == [];
  }

  lemma CodeInBoth(v: nat)
    requires v < 64
    ensures var u, c := Code(v, true), Code(v, false);
            && u != NEWLINE && c != NEWLINE && u != PAD && c != PAD && c != MINUS && c != UNDERSCORE
            && c == if u == MINUS then PLUS else if u == UNDERSCORE then SLASH else u
  {
  }

  lemma {:induction false} TextInBoth(data: Octets)
    ensures Plain(Encoded(data, true)) && Plain(Encoded(data, false)) && !UrlOnly(Encoded(data, false))
    ensures Padded(ToStandard(Encoded(data, true))) == Encoded(data, false)
  {
    if data != [] {
      hide Encoded, Padded, ToStandard;
      if |data| <= 3 {
        GroupInBoth(data);
      } else {
        GroupInBoth(data[..3]);
        TextInBoth(data[3..]);
        EncodedSplits(data, true);
        EncodedSplits(data, false);
        ToStandardOfSum(Encoded(data[..3], true), Encoded(data[3..], true));
        PaddedOfSum(ToStandard(Encoded(data[..3], true)), ToStandard(Encoded(data[3..], true)));
        NoPadding(ToStandard(Encoded(data[..3], true)));
      }
    }
  }

  /**
   The round trip, for every byte sequence and in both modes; a URL-safe decoder also reads standard text.
   */
  lemma {:induction false} RoundTrip(data: Octets, url: bool)
    ensures Decoded(Encoded(data, url), url) == Ok(data)
    ensures Decoded(Encoded(data, false), true) == Ok(data)
  {
    TextInBoth(data);
    GroupsOfEncoded(data);
    PlainIsKept(Encoded(data, true));
    PlainIsKept(Encoded(data, false));
    NothingToReplace(Encoded(data, false));
    NoPadding(Encoded(data, false));
  }

  /** Line breaks may stand anywhere. */
  lemma NewlinesAreIgnored(a: Octets, b: Octets, url: bool)
    ensures Decoded(a + [NEWLINE] + b, url) == Decoded(a + b, url)
  {
    WithoutNewlinesOfSum(a + [NEWLINE], b);
    WithoutNewlinesOfSum(a, [NEWLINE]);
    WithoutNewlinesOfSum(a, b);
    assert WithoutNewlines([NEWLINE]) == [];
    assert WithoutNewlines(a) + [] == WithoutNewlines(a);
  }

  lemma UrlOnlyQuad(c0: Byte, c1: Byte, c2: Byte, c3: Byte)
    requires c0 == MINUS || c0 == UNDERSCORE || c1 == MINUS || c1 == UNDERSCORE
          || c2 == MINUS || c2 == UNDERSCORE || c3 == MINUS || c3 == UNDERSCORE
    ensures Quad(c0, c1, c2, c3).Err?
  {
    hide First, Second, Third;
  }

  lemma PaddedBegins(x: Octets)
    ensures |Padded(x)| >= |x| && |Padded(x)| % 4 == 0 && forall i | 0 <= i < |x| :: Padded(x)[i] == x[i]
  {
  }

  lemma {:induction false} GroupRefused(data: Octets, rest: Octets)
    requires 0 < |data| <= 3 && UrlOnly(Encoded(data, true))
    ensures Groups(Padded(Encoded(data, true) + rest)).Err?
  {
    hide *;
    var e := Encoded(data, true);
    EncodedBegins(data);
    PaddedBegins(e + rest);
    var s := Padded(e + rest);
    var i := FindUrlOnly(e);
    assert e[i] == (e + rest)[i] == s[i];
    assert e[0] == (e + rest)[0] == s[0];
    UrlOnlyQuad(s[0], s[1], s[2], s[3]);
    NothingDecoded(s);
    GroupStep(s, 0, []);
  }

  lemma FindUrlOnly(s: Octets) returns (i: nat)
    requires UrlOnly(s)
    ensures i < |s| && (s[i] == MINUS || s[i] == UNDERSCORE)
  {
    i :| 0 <= i < |s| && (s[i] == MINUS || s[i] == UNDERSCORE);
  }

  lemma EncodedBegins(data: Octets)
    requires 0 < |data| <= 3
    ensures var e := Encoded(data, true); 0 < |e| <= 4 && e[0] != PAD
  {
    hide Triple, Sextet, Code;
    var b1: Byte, b2: Byte := if |data| > 1 then data[1] else 0, if |data| > 2 then data[2] else 0;
    CodeInBoth(Sextet(Triple(data[0], b1, b2), 0));
  }

  lemma {:induction false} UrlTextRefused(data: Octets)
    requires UrlOnly(Encoded(data, true))
    ensures Groups(Padded(Encoded(data, true))).Err?
  {
    if |data| <= 3 {
      GroupRefused(data, []);
      assert Encoded(data, true) + [] == Encoded(data, true);
    } else {
      hide Encoded, Padded, ToStandard, Groups;
      var head, tail := Encoded(data[..3], true), Encoded(data[3..], true);
      EncodedSplits(data, true);
      if UrlOnly(head) {
        GroupRefused(data[..3], tail);
      } else {
        assert UrlOnly(tail) by {
          var i :| 0 <= i < |head + tail| && ((head + tail)[i] == MINUS || (head + tail)[i] == UNDERSCORE);
          assert i >= |head| && tail[i - |head|] == (head + tail)[i];
        }
        UrlTextRefused(data[3..]);
        GroupInBoth(data[..3]);
        NothingToReplace(head);
        NoPadding(head);
        PaddedOfSum(head, tail);
        GroupComesBack(data[..3], Padded(tail));
      }
    }
  }

  /** The standard decoder reads URL-safe text exactly if the text has no character of its own alphabet. */
  lemma {:induction false} StandardReadsUrlSafe(data: Octets)
    ensures Decoded(Encoded(data, true), false) == Ok(data) <==> !UrlOnly(Encoded(data, true))
  {
    TextInBoth(data);
    PlainIsKept(Encoded(data, true));
    if UrlOnly(Encoded(data, true)) {
      UrlTextRefused(data);
    } else {
      NothingToReplace(Encoded(data, true));
      GroupsOfEncoded(data);
    }
  }

  // ----- The tables and the text, as RFC 4648 prints them -----

  const UPPER: string := "ABCDEFGHIJKLMNOPQRSTUVWXYZ"
  const LOWER: string := "abcdefghijklmnopqrstuvwxyz"
  const DIGITS: string := "0123456789"

  /** Table 1, and for the URL-safe alphabet Table 2. */
  ghost function Table(url: bool): (t: string)
    ensures |t| == 64
  {
    UPPER + LOWER + DIGITS + if url then "-_" else "+/"
  }

  lemma UpperAt(v: nat)
    requires v < 26
    ensures UPPER[v] as int == 65 + v && LOWER[v] as int == 97 + v
  {
    if v < 13 {
      assert v == 0 || v == 1 || v == 2 || v == 3 || v == 4 || v == 5 || v == 6
             || v == 7 || v == 8 || v == 9 || v == 10 || v == 11 || v == 12;
    } else {
      assert v == 13 || v == 14 || v == 15 || v == 16 || v == 17 || v == 18 || v == 19
             || v == 20 || v == 21 || v == 22 || v == 23 || v == 24 || v == 25;
    }
  }

  lemma DigitAt(v: nat)
    requires v < 10
    ensures DIGITS[v] as int == 48 + v
  {
    assert v == 0 || v == 1 || v == 2 || v == 3 || v == 4 || v == 5 || v == 6 || v == 7 || v == 8 || v == 9;
  }

  lemma TableAt(v: nat, url: bool)
    requires v < 64
    ensures Code(v, url) == Table(url)[v] as int
    ensures PAD == '=' as int && NEWLINE == '\n' as int
  {
    if v < 26 {
      UpperAt(v);
    } else if v < 52 {
      UpperAt(v - 26);
    } else if v < 62 {
      DigitAt(v - 52);
    }
  }

  lemma {:induction false} EncodedLength(data: Octets, url: bool)
    ensures |Encoded(data, url)| == if url then (4 * |data| + 2) / 3 else (|data| + 2) / 3 * 4
  {
    hide Triple, Sextet, Code;
    if 0 < |data| <= 3 {
      EncodedGroup(data, url);
    } else if |data| > 3 {
      EncodedLength(data[3..], url);
    }
  }

  /**
   The k-th group of the text, section 4 of RFC 4648: its characters are the table's for the bits of the three
   bytes, six at a time, and at the end of the data a padding character stands for each one missing, or nothing
   in the URL-safe encoding.
   */
  lemma {:induction false} TextOfGroup(data: Octets, url: bool, k: nat)
    requires 3 * k < |data|
    ensures var e := Encoded(data, url);
            var b0, i := data[3 * k] as nat, 4 * k;
            var b1 := if 3 * k + 1 < |data| then data[3 * k + 1] as nat else 0;
            var b2 := if 3 * k + 2 < |data| then data[3 * k + 2] as nat else 0;
            && |e| == (if url then (4 * |data| + 2) / 3 else (|data| + 2) / 3 * 4)
            && i + 1 < |e|
            && e[i] == Table(url)[b0 / 4] as int
            && e[i + 1] == Table(url)[b0 % 4 * 16 + b1 / 16] as int
            && (3 * k + 1 < |data| ==> i + 2 < |e| && e[i + 2] == Table(url)[b1 % 16 * 4 + b2 / 64] as int)
            && (3 * k + 2 < |data| ==> i + 3 < |e| && e[i + 3] == Table(url)[b2 % 64] as int)
            && (3 * k + 1 == |data| && !url ==> i + 3 < |e| && e[i + 2] == '=' as int)
            && (3 * k + 2 >= |data| && !url ==> i + 3 < |e| && e[i + 3] == '=' as int)
  {
    hide Encoded, Code, Table, Triple, Sextet;
    EncodedLength(data, url);
    if k > 0 {
      TextOfGroup(data[3..], url, k - 1);
      EncodedSplits(data, url);
      EncodedLength(data[..3], url);
    } else if |data| > 3 {
      EncodedSplits(data, url);
      FirstGroup(data[..3], url);
    } else {
      FirstGroup(data, url);
    }
  }

  lemma FirstGroup(data: Octets, url: bool)
    requires 0 < |data| <= 3
    ensures var e := Encoded(data, url);
            var b0 := data[0] as nat;
            var b1 := if 1 < |data| then data[1] as nat else 0;
            var b2 := if 2 < |data| then data[2] as nat else 0;
            && |e| == (if url then |data| + 1 else 4)
            && e[0] == Table(url)[b0 / 4] as int
            && e[1] == Table(url)[b0 % 4 * 16 + b1 / 16] as int
            && (1 < |data| ==> e[2] == Table(url)[b1 % 16 * 4 + b2 / 64] as int)
            && (2 < |data| ==> e[3] == Table(url)[b2 % 64] as int)
            && (|data| == 1 && !url ==> e[2] == '=' as int)
            && (|data| <= 2 && !url ==> e[3] == '=' as int)
  {
    hide Code, Table, Triple, Sextet, Encoded;
    var b1: Byte, b2: Byte := if |data| > 1 then data[1] else 0, if |data| > 2 then data[2] else 0;
    var t := Triple(data[0], b1, b2);
    EncodedGroup(data, url);
    SextetsOfBytes(data[0], b1, b2);
    TableAt(Sextet(t, 0), url);
    TableAt(Sextet(t, 1), url);
    TableAt(Sextet(t, 2), url);
    TableAt(Sextet(t, 3), url);
  }

  // ----- What can be decoded at all -----

  predicate InTable(c: Byte) {
    || 'A' as int <= c <= 'Z' as int || 'a' as int <= c <= 'z' as int || '0' as int <= c <= '9' as int
    || c == '+' as int || c == '/' as int
  }

  /**
   Text without padding and line breaks is decoded exactly if it has only characters of the table and no group
   of a single character, and then every four characters give three bytes.
   */
  lemma {:induction false} DecodesExactly(s: Octets)
    requires PAD !in s && NEWLINE !in s
    ensures Decoded(s, false).Ok? <==> |s| % 4 != 1 && forall c | c in s :: InTable(c)
    ensures Decoded(s, false).Ok? ==> |Decoded(s, false).value| == |s| * 3 / 4
  {
    PlainIsKept(s);
    GroupsExactly(s);
  }

  lemma GroupExactly(s: Octets)
    requires 0 < |s| <= 4 && PAD !in s
    ensures var p := Padded(s);
            && |p| == 4
            && (Quad(p[0], p[1], p[2], p[3]).Ok? <==> |s| != 1 && forall c | c in s :: InTable(c))
            && (Quad(p[0], p[1], p[2], p[3]).Ok? ==> |Quad(p[0], p[1], p[2], p[3]).value| == |s| * 3 / 4)
  {
    assert s[0] in s && (|s| > 1 ==> s[1] in s) && (|s| > 2 ==> s[2] in s) && (|s| > 3 ==> s[3] in s);
  }

  lemma GroupsBegin(p: Octets)
    requires |p| >= 4 && p[0] != PAD
    ensures var q := Quad(p[0], p[1], p[2], p[3]);
            && (Groups(p).Ok? <==> q.Ok? && Groups(p[4..]).Ok?)
            && (Groups(p).Ok? ==> |Groups(p).value| == |q.value| + |Groups(p[4..]).value|)
    ensures Groups([]) == Ok([])
  {
    hide Quad;
  }

  lemma {:induction false} GroupsExactly(s: Octets)
    requires PAD !in s
    ensures Groups(Padded(s)).Ok? <==> |s| % 4 != 1 && forall c | c in s :: InTable(c)
    ensures Groups(Padded(s)).Ok? ==> |Groups(Padded(s)).value| == |s| * 3 / 4
  {
    hide Quad, InTable, Groups, Padded;
    NoPadding([]);
    GroupsBegin([0, 0, 0, 0]);
    if 0 < |s| <= 4 {
      GroupExactly(s);
      assert s[0] in s && Padded(s)[4..] == [];
      PaddedBegins(s);
      GroupsBegin(Padded(s));
    } else if |s| > 4 {
      GroupExactly(s[..4]);
      GroupsExactly(s[4..]);
      assert s == s[..4] + s[4..];
      PaddedOfSum(s[..4], s[4..]);
      NoPadding(s[..4]);
      assert s[0] in s;
      assert Padded(s)[4..] == Padded(s[4..]);
      GroupsBegin(Padded(s));
    }
  }
}
