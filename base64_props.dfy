/**
 * What base64Decode does, stated without its loop: which characters it
 * consumes (the alphabet characters before its stopping point), and the
 * round trip with the standard base64 encoding, including the case where
 * the never-consumed final character costs the last byte.
 */
module Base64Properties {
  import opened Ints
  import opened Base64

  // ---------------------------------------------------------------------
  // Which characters are consumed
  // ---------------------------------------------------------------------

  /** The alphabet characters of t, in order. */
  function Filter(t: string): (r: string)
    ensures |r| <= |t|
  {
    if t == [] then [] else (if IsBase64(t[0]) then [t[0]] else []) + Filter(t[1..])
  }

  /**
   * Where decoding stops, scanning from k: at an '=' met at the loop head
   * (`head`: k is the start or follows a consumed character), or at the
   * last character, which is never consumed.
   */
  function StopScan(s: string, k: nat, head: bool): (e: nat)
    requires k < |s|
    ensures k <= e < |s|
    decreases |s| - k
  {
    if (head && s[k] == '=') || k == |s| - 1 then k else StopScan(s, k + 1, IsBase64(s[k]))
  }

  /** The index decoding stops at. */
  function Stop(s: string): nat
    requires s != []
  {
    StopScan(s, 0, true)
  }

  lemma {:induction false} FilterAppend(a: string, b: string)
    ensures Filter(a + b) == Filter(a) + Filter(b)
  {
    if a != [] {
      assert (a + b)[1..] == a[1..] + b;
      FilterAppend(a[1..], b);
    } else {
      assert a + b == b;
    }
  }

  lemma {:induction false} FilterNoise(s: string, p: nat, q: nat)
    requires p <= q <= |s|
    requires forall j :: p <= j < q ==> !IsBase64(s[j])
    ensures Filter(s[p..q]) == []
    decreases q - p
  {
    if p < q {
      assert s[p..q][1..] == s[p + 1..q];
      FilterNoise(s, p + 1, q);
    }
  }

  /** Skipped characters do not move the stopping point. */
  lemma {:induction false} StopScanSkips(s: string, p: nat, q: nat)
    requires p <= q < |s|
    requires s[p] != '='
    requires forall j :: p <= j < q ==> !IsBase64(s[j])
    requires q < |s| - 1 ==> IsBase64(s[q])
    ensures StopScan(s, p, true) == StopScan(s, q, p == q)
    decreases q - p
  {
    if p < q {
      if p + 1 < q {
        StopScanTail(s, p + 1, q);
      }
    }
  }

  lemma {:induction false} StopScanTail(s: string, p: nat, q: nat)
    requires 0 < p <= q < |s|
    requires forall j :: p - 1 <= j < q ==> !IsBase64(s[j])
    ensures StopScan(s, p, false) == StopScan(s, q, false)
    decreases q - p
  {
    if p < q {
      StopScanTail(s, p + 1, q);
    }
  }

  /** From a loop-head position p, the consumed characters are the alphabet characters up to the stop. */
  lemma {:induction false} TakenFromIsFilter(s: string, p: nat)
    requires p < |s|
    ensures TakenFrom(s, p) == Filter(s[p..StopScan(s, p, true)])
    decreases |s| - p, 1
  {
    if s[p] != '=' {
      var q := SkipNoise(s, p);
      StopScanSkips(s, p, q);
      FilterNoise(s, p, q);
      if q < |s| - 1 {
        ConsumedThenRest(s, p, q);
      }
    }
  }

  /** The step where the character at q, after the noise from p, is consumed. */
  lemma {:induction false} ConsumedThenRest(s: string, p: nat, q: nat)
    requires p <= q < |s| - 1 && IsBase64(s[q])
    requires TakenFrom(s, p) == [s[q]] + TakenFrom(s, q + 1)
    requires StopScan(s, p, true) == StopScan(s, q + 1, true)
    requires Filter(s[p..q]) == []
    ensures TakenFrom(s, p) == Filter(s[p..StopScan(s, p, true)])
    decreases |s| - p, 0
  {
    var e := StopScan(s, q + 1, true);
    var noise, rest := s[p..q], s[q + 1..e];
    assert TakenFrom(s, q + 1) == Filter(rest) by {
      TakenFromIsFilter(s, q + 1);
    }
    assert Filter(noise + [s[q]] + rest) == [s[q]] + Filter(rest) by {
      FilterConsumed(noise, s[q], rest);
    }
    SliceAround(s, p, q, e);
  }

  lemma SliceAround(s: string, p: nat, q: nat, e: nat)
    requires p <= q < e <= |s|
    ensures s[p..e] == s[p..q] + [s[q]] + s[q + 1..e]
  {
  }

  /** Noise, then an alphabet character, then the rest. */
  lemma FilterConsumed(noise: string, c: char, rest: string)
    requires Filter(noise) == [] && IsBase64(c)
    ensures Filter(noise + [c] + rest) == [c] + Filter(rest)
  {
    FilterAppend(noise, [c]);
    FilterAppend(noise + [c], rest);
    assert Filter([c]) == [c];
  }

  /**
   * The characters base64Decode consumes are exactly the alphabet characters
   * before the stopping point: non-alphabet characters (including an '='
   * that follows one) are skipped, an '=' right after a consumed character
   * or at the start ends decoding, and the last character is never read.
   */
  lemma TakenIsFilter(s: string)
    requires s != []
    ensures Taken(s) == Filter(s[..Stop(s)])
    ensures forall c :: c in Taken(s) ==> IsBase64(c)
  {
    TakenFromIsFilter(s, 0);
    FilterAlphabet(s[..Stop(s)]);
  }

  lemma {:induction false} FilterAlphabet(t: string)
    ensures forall c :: c in Filter(t) ==> IsBase64(c)
  {
    if t != [] {
      FilterAlphabet(t[1..]);
    }
  }

  /** Whatever the final character is, it changes nothing. */
  lemma LastCharacterIgnored(s: string, c: char, d: char)
    ensures Decode(s + [c]) == Decode(s + [d])
  {
    var s1, s2 := s + [c], s + [d];
    StopScanAgree(s1, s2, 0, true);
    TakenIsFilter(s1);
    TakenIsFilter(s2);
    assert s1[..Stop(s1)] == s2[..Stop(s2)];
  }

  lemma {:induction false} StopScanAgree(s1: string, s2: string, k: nat, head: bool)
    requires |s1| == |s2| && k < |s1|
    requires s1[..|s1| - 1] == s2[..|s2| - 1]
    ensures StopScan(s1, k, head) == StopScan(s2, k, head)
    decreases |s1| - k
  {
    if k < |s1| - 1 {
      assert s1[k] == s1[..|s1| - 1][k];
      StopScanAgree(s1, s2, k + 1, IsBase64(s1[k]));
    }
  }

  /**
   * Alphabet characters followed by an '=' (and anything), or by a single
   * final character, are consumed in full and nothing after them is.
   */
  lemma {:induction false} TakenPrefix(a: string, rest: string, p: nat)
    requires forall k :: 0 <= k < |a| ==> IsBase64(a[k])
    requires rest != [] && (rest[0] == '=' || |rest| == 1)
    requires p <= |a|
    ensures TakenFrom(a + rest, p) == a[p..]
    decreases |a| - p
  {
    var s := a + rest;
    if p < |a| {
      assert s[p] == a[p];
      assert SkipNoise(s, p) == p;
      TakenPrefix(a, rest, p + 1);
      assert a[p..] == [a[p]] + a[p + 1..];
    } else {
      assert s[p] == rest[0];
    }
  }

  // ---------------------------------------------------------------------
  // The standard encoding, and the round trip
  // ---------------------------------------------------------------------

  /** 6-bit values as alphabet characters. */
  function EncodeSextets(v: seq<int>): (r: string)
    requires forall k :: 0 <= k < |v| ==> 0 <= v[k] < 64
    ensures |r| == |v|
  {
    if v == [] then [] else [AlphabetChar(v[0])] + EncodeSextets(v[1..])
  }

  /** Three bytes as four alphabet characters. */
  function EncodeGroup(x: uint8, y: uint8, z: uint8): (r: string)
    ensures |r| == 4
  {
    EncodeSextets([x as int / 4, (x as int % 4) * 16 + y as int / 16, (y as int % 16) * 4 + z as int / 64, z as int % 64])
  }

  /** The alphabet characters of the standard encoding of b, padding excluded. */
  function EncodeBody(b: seq<uint8>): string
  {
    if |b| >= 3 then EncodeGroup(b[0], b[1], b[2]) + EncodeBody(b[3..])
    else if |b| == 2 then EncodeSextets([b[0] as int / 4, (b[0] as int % 4) * 16 + b[1] as int / 16, (b[1] as int % 16) * 4])
    else if |b| == 1 then EncodeSextets([b[0] as int / 4, (b[0] as int % 4) * 16])
    else []
  }

  /** The standard base64 encoding of b, with '=' padding to a multiple of four characters. */
  function Encode(b: seq<uint8>): string
  {
    EncodeBody(b) + (if |b| % 3 == 1 then "==" else if |b| % 3 == 2 then "=" else "")
  }

  /** Looking the characters of an encoding up in the alphabet gives the 6-bit values back. */
  lemma {:induction false} SextetsOfEncoding(v: seq<int>)
    requires forall k :: 0 <= k < |v| ==> 0 <= v[k] < 64
    ensures forall k :: 0 <= k < |v| ==> Sextets(EncodeSextets(v))[k] as int == v[k]
    ensures forall k :: 0 <= k < |v| ==> IsBase64(EncodeSextets(v)[k])
  {
    if v != [] {
      SextetsOfEncoding(v[1..]);
      var r := EncodeSextets(v[1..]);
      assert EncodeSextets(v) == [AlphabetChar(v[0])] + r;
      assert Sextets(EncodeSextets(v)) == [SextetOf(AlphabetChar(v[0]))] + Sextets(r);
    }
  }

  /** The encoding proper uses alphabet characters only. */
  lemma {:induction false} BodyAlphabet(b: seq<uint8>)
    ensures forall k :: 0 <= k < |EncodeBody(b)| ==> IsBase64(EncodeBody(b)[k])
    decreases |b|
  {
    if |b| >= 3 {
      BodyAlphabet(b[3..]);
      var g, r := EncodeGroup(b[0], b[1], b[2]), EncodeBody(b[3..]);
      SextetsOfEncoding([b[0] as int / 4, (b[0] as int % 4) * 16 + b[1] as int / 16,
                         (b[1] as int % 16) * 4 + b[2] as int / 64, b[2] as int % 64]);
      assert EncodeBody(b) == g + r;
      forall k | 0 <= k < |g + r|
        ensures IsBase64((g + r)[k])
      {
        if k >= 4 {
          assert (g + r)[k] == r[k - 4];
        }
      }
    } else if |b| == 2 {
      SextetsOfEncoding([b[0] as int / 4, (b[0] as int % 4) * 16 + b[1] as int / 16, (b[1] as int % 16) * 4]);
    } else if |b| == 1 {
      SextetsOfEncoding([b[0] as int / 4, (b[0] as int % 4) * 16]);
    }
  }

  lemma SextetsOfGroup(x: uint8, y: uint8, z: uint8)
    ensures Sextets(EncodeGroup(x, y, z)) ==
      [ (x as int / 4) as uint8, ((x as int % 4) * 16 + y as int / 16) as uint8,
        ((y as int % 16) * 4 + z as int / 64) as uint8, (z as int % 64) as uint8 ]
  {
    var v := [x as int / 4, (x as int % 4) * 16 + y as int / 16, (y as int % 16) * 4 + z as int / 64, z as int % 64];
    SextetsOfEncoding(v);
  }

  /** The arithmetic of the group conversion undoes the split into 6-bit values. */
  lemma QuadRoundTrip(x: uint8, y: uint8, z: uint8)
    ensures DecodeQuad((x as int / 4) as uint8, ((x as int % 4) * 16 + y as int / 16) as uint8,
                       ((y as int % 16) * 4 + z as int / 64) as uint8, (z as int % 64) as uint8) == [x, y, z]
  {
    var c0, c1 := x as int / 4, (x as int % 4) * 16 + y as int / 16;
    var c2, c3 := (y as int % 16) * 4 + z as int / 64, z as int % 64;
    FirstByteBack(x as int, c0, c1);
    MiddleByteBack(y as int, c1, c2);
    LastByteBack(z as int, c2, c3);
  }

  /** The first byte comes back from the first sextet and the two high bits of the second. */
  lemma FirstByteBack(x: nat, c0: nat, c1: nat)
    requires x < 256 && c0 == x / 4 && c1 / 16 == x % 4
    ensures (c0 * 4 + (c1 / 16) % 4) % 256 == x
  {
  }

  /** The second byte comes back from the low nibble of the second sextet and the high nibble of the third. */
  lemma MiddleByteBack(y: nat, c1: nat, c2: nat)
    requires y < 256 && c1 % 16 == y / 16 && c2 / 4 == y % 16
    ensures ((c1 % 16) * 16 + (c2 / 4) % 16) % 256 == y
  {
  }

  /** The third byte comes back from the two low bits of the third sextet and the fourth. */
  lemma LastByteBack(z: nat, c2: nat, c3: nat)
    requires z < 256 && c2 % 4 == z / 64 && c3 == z % 64
    ensures ((c2 % 4) * 64 + c3) % 256 == z
  {
  }

  /** Decoding a group undoes encoding it. */
  lemma GroupRoundTrip(x: uint8, y: uint8, z: uint8)
    ensures DecodeGroup(EncodeGroup(x, y, z)) == [x, y, z]
  {
    SextetsOfGroup(x, y, z);
    QuadRoundTrip(x, y, z);
  }

  /** A partial group decodes from the 6-bit values of its characters, the NUL padding giving 0xFF. */
  lemma TailSextets(t: string)
    requires 2 <= |t| <= 3
    ensures var s := Sextets(t);
      DecodeTail(t) == DecodeQuad(s[0], s[1], if |t| == 3 then s[2] else 0xFF, 0xFF)[..|t| - 1]
  {
    var q := t + seq(4 - |t|, _ => '\0');
    PaddedSextets(t);
    assert DecodeTail(t) == DecodeGroup(q)[..|t| - 1];
  }

  /** Padding a partial group with NULs adds sextets 0xFF. */
  lemma PaddedSextets(t: string)
    requires 2 <= |t| <= 3
    ensures var x, s := Sextets(t + seq(4 - |t|, _ => '\0')), Sextets(t);
      x[0] == s[0] && x[1] == s[1] && x[2] == (if |t| == 3 then s[2] else 0xFF) && x[3] == 0xFF
  {
    var q := t + seq(4 - |t|, _ => '\0');
    PaddedChars(t);
    SextetAt(q, 0);
    SextetAt(q, 1);
    SextetAt(q, 2);
    SextetAt(q, 3);
    SextetAt(t, 0);
    SextetAt(t, 1);
    if |t| == 3 {
      SextetAt(t, 2);
    }
  }

  /** The characters of a partial group padded with NULs. */
  lemma PaddedChars(t: string)
    requires 2 <= |t| <= 3
    ensures var q := t + seq(4 - |t|, _ => '\0');
      |q| == 4 && q[0] == t[0] && q[1] == t[1] && q[2] == (if |t| == 3 then t[2] else '\0') && q[3] == '\0'
  {
  }

  lemma {:induction false} SextetAt(t: string, k: nat)
    requires k < |t|
    ensures Sextets(t)[k] == SextetOf(t[k])
  {
    if k > 0 {
      SextetAt(t[1..], k - 1);
    }
  }

  lemma OneByteArith(x: uint8)
    ensures DecodeQuad((x as int / 4) as uint8, ((x as int % 4) * 16) as uint8, 0xFF, 0xFF)[..1] == [x]
  {
    var u := x as int;
    assert ((u % 4) * 16) / 16 == u % 4;
  }

  lemma TwoBytesArith(x: uint8, y: uint8, e: int)
    requires 0 <= e < 4
    ensures DecodeQuad((x as int / 4) as uint8, ((x as int % 4) * 16 + y as int / 16) as uint8,
                       ((y as int % 16) * 4 + e) as uint8, 0xFF)[..2] == [x, y]
  {
    var u, v := x as int, y as int;
    assert ((u % 4) * 16 + v / 16) / 16 == u % 4 && ((u % 4) * 16 + v / 16) % 16 == v / 16;
    assert ((v % 16) * 4 + e) / 4 == v % 16;
  }

  /** A partial group of two characters gives back the one byte they encode. */
  lemma OneByteRoundTrip(x: uint8)
    ensures DecodeTaken(EncodeBody([x])) == [x]
  {
    ShortDecode(EncodeBody([x]));
    var v := [x as int / 4, (x as int % 4) * 16];
    SextetsOfEncoding(v);
    var s := Sextets(EncodeBody([x]));
    assert s[0] == (x as int / 4) as uint8 && s[1] == ((x as int % 4) * 16) as uint8;
    TailSextets(EncodeBody([x]));
    OneByteArith(x);
  }

  /** A partial group of three characters gives back the two bytes they encode. */
  lemma TwoBytesRoundTrip(x: uint8, y: uint8)
    ensures DecodeTaken(EncodeBody([x, y])) == [x, y]
  {
    ShortDecode(EncodeBody([x, y]));
    var v := [x as int / 4, (x as int % 4) * 16 + y as int / 16, (y as int % 16) * 4];
    SextetsOfEncoding(v);
    var s := Sextets(EncodeBody([x, y]));
    assert s[0] as int == v[0] && s[1] as int == v[1] && s[2] as int == v[2];
    TailSextets(EncodeBody([x, y]));
    TwoBytesArith(x, y, 0);
  }

  lemma OneByteBody(b: seq<uint8>)
    requires |b| == 1
    ensures DecodeTaken(EncodeBody(b)) == b
  {
    OneByteRoundTrip(b[0]);
    Unpack(b);
  }

  lemma TwoBytesBody(b: seq<uint8>)
    requires |b| == 2
    ensures DecodeTaken(EncodeBody(b)) == b
  {
    TwoBytesRoundTrip(b[0], b[1]);
    Unpack(b);
  }

  /** A whole group of three bytes, then the rest. */
  lemma GroupThenBody(b: seq<uint8>)
    requires |b| >= 3 && DecodeTaken(EncodeBody(b[3..])) == b[3..]
    ensures DecodeTaken(EncodeBody(b)) == b
  {
    var g, rest := EncodeGroup(b[0], b[1], b[2]), EncodeBody(b[3..]);
    assert EncodeBody(b) == g + rest;
    DecodeTakenCons(g, rest);
    GroupRoundTrip(b[0], b[1], b[2]);
    Unpack(b);
  }

  /** The first bytes of a sequence, one by one. */
  lemma Unpack(b: seq<uint8>)
    ensures |b| == 1 ==> b == [b[0]]
    ensures |b| == 2 ==> b == [b[0], b[1]]
    ensures |b| >= 3 ==> b == [b[0], b[1], b[2]] + b[3..]
  {
  }

  /** Decoding the consumed characters: a whole group first, then the rest. */
  lemma DecodeTakenCons(g: string, t: string)
    requires |g| == 4
    ensures DecodeTaken(g + t) == DecodeGroup(g) + DecodeTaken(t)
  {
    var n := |t| / 4 * 4;
    assert |g + t| / 4 * 4 == 4 + n;
    assert (g + t)[..4 + n] == g + t[..n];
    assert (g + t)[4 + n..] == t[n..];
    DecodeGroupsAppend([], g, 0);
    assert (g + t[..n])[..4] == g && (g + t[..n])[4..] == t[..n];
  }

  /** Decoding the alphabet characters of an encoding gives the bytes back. */
  lemma {:induction false} BodyRoundTrip(b: seq<uint8>)
    ensures DecodeTaken(EncodeBody(b)) == b
    decreases |b|
  {
    if |b| >= 3 {
      BodyRoundTrip(b[3..]);
      GroupThenBody(b);
    } else if |b| == 1 {
      OneByteBody(b);
    } else if |b| == 2 {
      TwoBytesBody(b);
    }
  }

  /** Fewer than four consumed characters are a partial group alone. */
  lemma ShortDecode(t: string)
    requires |t| < 4
    ensures DecodeTaken(t) == DecodeTail(t)
  {
    assert t[..0] == [] && t[0..] == t;
  }

  /**
   * The standard encoding of b followed by any one character (a newline,
   * say) decodes to b.
   */
  lemma RoundTrip(b: seq<uint8>, c: char)
    ensures Decode(Encode(b) + [c]) == b
  {
    var body := EncodeBody(b);
    var pad := Encode(b)[|body|..];
    assert Encode(b) == body + pad;
    var rest := pad + [c];
    assert body + rest == Encode(b) + [c];
    BodyAlphabet(b);
    TakenPrefix(body, rest, 0);
    assert body[0..] == body;
    BodyRoundTrip(b);
  }

  /** The scan stops at an '=' or at the last character. */
  lemma {:induction false} StopScanAt(s: string, k: nat, head: bool)
    requires k < |s|
    ensures StopScan(s, k, head) == |s| - 1 || s[StopScan(s, k, head)] == '='
    decreases |s| - k
  {
    if !((head && s[k] == '=') || k == |s| - 1) {
      StopScanAt(s, k + 1, IsBase64(s[k]));
    }
  }

  /**
   * A text as a plist data element holds it: the characters of the encoding
   * broken by line breaks and indentation anywhere, every '=' after the last
   * alphabet character, and a final character outside the alphabet. It
   * decodes to the bytes.
   */
  lemma FormattedRoundTrip(s: string, b: seq<uint8>)
    requires s != [] && !IsBase64(s[|s| - 1])
    requires Filter(s) == EncodeBody(b)
    requires forall k, j :: 0 <= k <= j < |s| && s[k] == '=' ==> !IsBase64(s[j])
    ensures Decode(s) == b
  {
    NothingAfterStop(s);
    TakenIsFilter(s);
    BodyRoundTrip(b);
  }

  /** When nothing after the stop is an alphabet character, stopping loses nothing. */
  lemma NothingAfterStop(s: string)
    requires s != [] && !IsBase64(s[|s| - 1])
    requires forall k, j :: 0 <= k <= j < |s| && s[k] == '=' ==> !IsBase64(s[j])
    ensures Filter(s[..Stop(s)]) == Filter(s)
  {
    var e := Stop(s);
    StopScanAt(s, 0, true);
    NoiseFrom(s, e);
    FilterNoise(s, e, |s|);
    SplitAt(s, e);
    FilterAppend(s[..e], s[e..|s|]);
  }

  /** From an '=' or the last character on, there is only noise. */
  lemma NoiseFrom(s: string, e: nat)
    requires e < |s| && !IsBase64(s[|s| - 1])
    requires forall k, j :: 0 <= k <= j < |s| && s[k] == '=' ==> !IsBase64(s[j])
    requires e == |s| - 1 || s[e] == '='
    ensures forall j :: e <= j < |s| ==> !IsBase64(s[j])
  {
    forall j | e <= j < |s|
      ensures !IsBase64(s[j])
    {
      if e < |s| - 1 {
        assert 0 <= e <= j < |s| && s[e] == '=';
      }
    }
  }

  lemma SplitAt(s: string, e: nat)
    requires e <= |s|
    ensures s[..e] + s[e..|s|] == s
  {
  }

  /** An encoding that ends in padding decodes to b on its own. */
  lemma PaddedRoundTrip(b: seq<uint8>)
    requires |b| % 3 != 0
    ensures Decode(Encode(b)) == b
  {
    var body := EncodeBody(b);
    var rest := Encode(b)[|body|..];
    assert Encode(b) == body + rest;
    BodyAlphabet(b);
    TakenPrefix(body, rest, 0);
    assert body[0..] == body;
    BodyRoundTrip(b);
  }

  /**
   * An unpadded encoding with nothing after it loses its last byte: its
   * last character is never consumed, so its last group is decoded as a
   * partial group of three.
   */
  lemma DroppedFinalByte(b: seq<uint8>)
    requires |b| > 0 && |b| % 3 == 0
    ensures Decode(Encode(b)) == b[..|b| - 1]
  {
    var m := |b| - 3;
    var front := EncodeBody(b[..m]);
    var last := EncodeGroup(b[m], b[m + 1], b[m + 2]);
    var e := Encode(b);
    LastGroup(b);
    var a := front + last[..3];
    assert Taken(e) == a by {
      assert e == a + [last[3]];
      BodyAlphabet(b);
      assert e == EncodeBody(b) + "";
      assert forall k :: 0 <= k < |a| ==> a[k] == e[k];
      TakenPrefix(a, [last[3]], 0);
      assert a[0..] == a;
    }
    calc {
      Decode(e);
      DecodeTaken(a);
      { FrontRoundTrip(b[..m], last[..3]); }
      b[..m] + DecodeTail(last[..3]);
      { TailOfGroup(b[m], b[m + 1], b[m + 2]); }
      b[..m] + [b[m], b[m + 1]];
      { assert b[..|b| - 1] == b[..m] + [b[m], b[m + 1]]; }
      b[..|b| - 1];
    }
  }

  /** An unpadded encoding ends with the four characters of the last three bytes. */
  lemma LastGroup(b: seq<uint8>)
    requires |b| > 0 && |b| % 3 == 0
    ensures Encode(b) == EncodeBody(b[..|b| - 3]) + EncodeGroup(b[|b| - 3], b[|b| - 2], b[|b| - 1])
  {
    var m := |b| - 3;
    BodySplit(b, m);
    assert b[m..] == [b[m], b[m + 1], b[m + 2]];
    assert EncodeBody(b[m..]) == EncodeGroup(b[m], b[m + 1], b[m + 2]) + EncodeBody([]);
  }

  /** Dropping the last character of a group leaves a partial group giving its first two bytes. */
  lemma TailOfGroup(x: uint8, y: uint8, z: uint8)
    ensures DecodeTail(EncodeGroup(x, y, z)[..3]) == [x, y]
  {
    var g := EncodeGroup(x, y, z);
    SextetsAt(g);
    SextetsAt(g[..3]);
    SextetsOfGroup(x, y, z);
    var s := Sextets(g[..3]);
    assert s[0] == Sextets(g)[0] && s[1] == Sextets(g)[1] && s[2] == Sextets(g)[2];
    TailSextets(g[..3]);
    TwoBytesArith(x, y, z as int / 64);
  }

  /** The encoding of whole groups followed by a partial group of characters. */
  lemma {:induction false} FrontRoundTrip(b: seq<uint8>, t: string)
    requires |b| % 3 == 0 && |t| < 4
    ensures DecodeTaken(EncodeBody(b) + t) == b + DecodeTail(t)
    decreases |b|
  {
    if |b| == 0 {
      assert EncodeBody(b) + t == t;
      ShortDecode(t);
    } else {
      FrontRoundTrip(b[3..], t);
      FrontStep(b, t);
    }
  }

  lemma FrontStep(b: seq<uint8>, t: string)
    requires |b| >= 3 && |t| < 4
    requires DecodeTaken(EncodeBody(b[3..]) + t) == b[3..] + DecodeTail(t)
    ensures DecodeTaken(EncodeBody(b) + t) == b + DecodeTail(t)
  {
    var g, rest := EncodeGroup(b[0], b[1], b[2]), EncodeBody(b[3..]);
    GroupFirst(b, t);
    DecodeTakenCons(g, rest + t);
    GroupRoundTrip(b[0], b[1], b[2]);
    Unpack(b);
    AppendAssoc([b[0], b[1], b[2]], b[3..], DecodeTail(t));
  }

  /** The body of b followed by t, with its first group split off. */
  lemma GroupFirst(b: seq<uint8>, t: string)
    requires |b| >= 3
    ensures EncodeBody(b) + t == EncodeGroup(b[0], b[1], b[2]) + (EncodeBody(b[3..]) + t)
  {
    BodyFirst(b);
    AppendAssoc(EncodeGroup(b[0], b[1], b[2]), EncodeBody(b[3..]), t);
  }

  lemma BodyFirst(b: seq<uint8>)
    requires |b| >= 3
    ensures EncodeBody(b) == EncodeGroup(b[0], b[1], b[2]) + EncodeBody(b[3..])
  {
  }

  lemma AppendAssoc<T>(a: seq<T>, b: seq<T>, c: seq<T>)
    ensures a + (b + c) == (a + b) + c
  {
  }

  /** Encoding the first m bytes (whole groups), then the rest. */
  lemma {:induction false} BodySplit(b: seq<uint8>, m: nat)
    requires m % 3 == 0 && m <= |b|
    ensures EncodeBody(b) == EncodeBody(b[..m]) + EncodeBody(b[m..])
    decreases m
  {
    if m == 0 {
      assert b[..0] == [] && b[0..] == b;
    } else {
      BodySplit(b[3..], m - 3);
      SplitStep(b, m);
    }
  }

  lemma SplitStep(b: seq<uint8>, m: nat)
    requires m % 3 == 0 && 3 <= m <= |b|
    requires EncodeBody(b[3..]) == EncodeBody(b[3..][..m - 3]) + EncodeBody(b[3..][m - 3..])
    ensures EncodeBody(b) == EncodeBody(b[..m]) + EncodeBody(b[m..])
  {
    var g := EncodeGroup(b[0], b[1], b[2]);
    BodyFirst(b);
    BodyFirst(b[..m]);
    SliceFacts(b, m);
    AppendAssoc(g, EncodeBody(b[3..][..m - 3]), EncodeBody(b[m..]));
  }

  lemma SliceFacts(b: seq<uint8>, m: nat)
    requires 3 <= m <= |b|
    ensures b[..m][0] == b[0] && b[..m][1] == b[1] && b[..m][2] == b[2]
    ensures b[..m][3..] == b[3..][..m - 3] && b[3..][m - 3..] == b[m..]
  {
  }

  /** How many bytes a number of consumed characters gives. */
  lemma DecodedLength(t: string)
    ensures |DecodeTaken(t)| == |t| / 4 * 3 + (if |t| % 4 == 0 then 0 else |t| % 4 - 1)
  {
  }
}
