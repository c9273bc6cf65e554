/**
 * The forgiving base64 decoder of the disk image reader (base64Decode), and
 * what it does with every input: which characters it consumes, where it
 * stops, and the bytes each group of four characters turns into.
 *
 * Input text is a sequence of characters, one per byte of the source's
 * std::string. The uint8_t arithmetic of the source is written with
 * integer division and remainder: `(x & m) >> k` is a digit extraction and
 * the store into a uint8_t is `% 256`.
 */
module Base64 {
  import opened Wrappers
  import opened Ints
  import Text

  const Uppercase: string := "ABCDEFGHIJKLMNOPQRSTUVWXYZ"
  const Lowercase: string := "abcdefghijklmnopqrstuvwxyz"
  const Digits: string := "0123456789"

  /** base64_chars: the standard alphabet; a character's position in it is its 6-bit value. */
  const Alphabet: string := Uppercase + Lowercase + Digits + "+/"

  /** isalnum in the C locale. */
  predicate IsAlnum(c: char)
  {
    'A' <= c <= 'Z' || 'a' <= c <= 'z' || '0' <= c <= '9'
  }

  /** is_base64: the characters the decoder consumes. */
  predicate IsBase64(c: char)
  {
    IsAlnum(c) || c == '+' || c == '/'
  }

  /** base64_chars.find(c) stored into a uint8_t: npos truncates to 0xFF. */
  function AlphabetFind(c: char): uint8
  {
    match Text.Find(Alphabet, c, 0)
    case Some(k) => k as uint8
    case None => 0xFF
  }

  /** The same value computed from the character's range; see SextetOfIsFind. */
  function SextetOf(c: char): uint8
  {
    if 'A' <= c <= 'Z' then (c as int - 'A' as int) as uint8
    else if 'a' <= c <= 'z' then (c as int - 'a' as int + 26) as uint8
    else if '0' <= c <= '9' then (c as int - '0' as int + 52) as uint8
    else if c == '+' then 62
    else if c == '/' then 63
    else 0xFF
  }

  /** The character of the alphabet with 6-bit value x. */
  function AlphabetChar(x: nat): (c: char)
    requires x < 64
    ensures IsBase64(c) && SextetOf(c) as int == x
  {
    if x < 26 then ('A' as int + x) as char
    else if x < 52 then ('a' as int + (x - 26)) as char
    else if x < 62 then ('0' as int + (x - 52)) as char
    else if x == 62 then '+'
    else '/'
  }

  lemma AlphabetAt(x: nat)
    requires x < 64
    ensures |Alphabet| == 64 && Alphabet[x] == AlphabetChar(x)
  {
    if x < 26 {
      assert Alphabet[x] == Uppercase[x];
    } else if x < 52 {
      assert Alphabet[x] == Lowercase[x - 26];
    } else if x < 62 {
      assert Alphabet[x] == Digits[x - 52];
    }
  }

  /** Looking a character up in base64_chars gives its range-computed value, 0xFF outside the alphabet. */
  lemma SextetOfIsFind(c: char)
    ensures AlphabetFind(c) == SextetOf(c)
    ensures IsBase64(c) <==> SextetOf(c) < 64
  {
    forall j | 0 <= j < 64 {
      AlphabetAt(j);
    }
    var r := Text.Find(Alphabet, c, 0);
    if IsBase64(c) {
      var k := SextetOf(c) as int;
      assert Alphabet[k] == c;
      assert r.Some? && r.value <= k;
      assert SextetOf(Alphabet[r.value]) as int == r.value;
    } else {
      assert r.None?;
    }
  }

  /** The three bytes the source computes from four 6-bit values (char_array_3). */
  function DecodeQuad(c0: uint8, c1: uint8, c2: uint8, c3: uint8): (r: seq<uint8>)
    ensures |r| == 3
  {
    [ (((c0 as int) * 4 + (c1 as int / 16) % 4) % 256) as uint8,
      (((c1 as int % 16) * 16 + (c2 as int / 4) % 16) % 256) as uint8,
      (((c2 as int % 4) * 64 + c3 as int) % 256) as uint8 ]
  }

  /** Every character looked up in the alphabet, in order. */
  function Sextets(t: seq<char>): (r: seq<uint8>)
    ensures |r| == |t|
  {
    if t == [] then [] else [SextetOf(t[0])] + Sextets(t[1..])
  }

  /** A complete group of four consumed characters. */
  function DecodeGroup(q: seq<char>): (r: seq<uint8>)
    requires |q| == 4
    ensures |r| == 3
  {
    var x := Sextets(q);
    DecodeQuad(x[0], x[1], x[2], x[3])
  }

  /** The final partial group: padded with NUL characters, of which only |t| - 1 bytes are kept. */
  function DecodeTail(t: seq<char>): (r: seq<uint8>)
    requires |t| < 4
    ensures |r| == if t == [] then 0 else |t| - 1
  {
    if t == [] then [] else DecodeGroup(t + seq(4 - |t|, _ => '\0'))[..|t| - 1]
  }

  /** The bytes produced from whole groups of consumed characters, group by group. */
  function DecodeGroups(t: seq<char>): (r: seq<uint8>)
    requires |t| % 4 == 0
    ensures |r| == |t| / 4 * 3
    decreases |t|
  {
    if t == [] then [] else DecodeGroup(t[..4]) + DecodeGroups(t[4..])
  }

  /** The consumed characters decoded: the whole groups, then the partial group left in char_array_4. */
  function DecodeTaken(t: seq<char>): seq<uint8>
  {
    var n := |t| / 4 * 4;
    DecodeGroups(t[..n]) + DecodeTail(t[n..])
  }

  /** The inner loop: the first base64 character at or after p, or the input's last index. */
  function SkipNoise(s: string, p: nat): (q: nat)
    requires p < |s|
    ensures p <= q < |s|
    ensures forall j :: p <= j < q ==> !IsBase64(s[j])
    ensures q < |s| - 1 ==> IsBase64(s[q])
    decreases |s| - p
  {
    if IsBase64(s[p]) || p == |s| - 1 then p else SkipNoise(s, p + 1)
  }

  /** The characters consumed from position p on, p being where the outer loop's test looks. */
  function TakenFrom(s: string, p: nat): seq<char>
    requires p < |s|
    decreases |s| - p
  {
    if s[p] == '=' then []
    else
      var q := SkipNoise(s, p);
      if q == |s| - 1 then [] else [s[q]] + TakenFrom(s, q + 1)
  }

  /** The characters base64Decode consumes from its input, in order. */
  function Taken(s: string): seq<char>
  {
    if s == [] then [] else TakenFrom(s, 0)
  }

  /** The bytes base64Decode appends to its output vector. */
  function Decode(s: string): seq<uint8>
  {
    DecodeTaken(Taken(s))
  }

  /**
   * base64Decode(input, output): appends the decoded bytes to `output` and
   * reports whether the output vector is non-empty afterwards. The working
   * buffers and the trailing `if (i)` block are the helpers below.
   */
  method Base64Decode(input: string, output0: seq<uint8>) returns (ok: bool, output: seq<uint8>)
    ensures output == output0 + Decode(input)
    ensures ok <==> |output| > 0
  {
    var charArray4 := new char[4];
    var i;
    ghost var done, pending, groups;
    i, output, done, pending, groups := DecodeWholeGroups(input, output0, charArray4);
    if i != 0 {
      output := EmitTail(charArray4, output, i, pending);
    }
    TailStep(done, pending, groups);
    ok := |output| > 0;
  }

  /**
   * The main loop of base64Decode: consumes characters until it meets '=' or
   * the last character, decoding every completed group of four. On return,
   * `done` holds the characters of the decoded groups and charArray4[..i] the
   * `pending` ones.
   */
  method DecodeWholeGroups(input: string, output0: seq<uint8>, charArray4: array<char>)
    returns (i: nat, output: seq<uint8>, ghost done: seq<char>, ghost pending: seq<char>, ghost groups: nat)
    requires charArray4.Length == 4
    modifies charArray4
    ensures Taken(input) == done + pending
    ensures i < 4 && |done| == 4 * groups && |pending| == i
    ensures forall k :: 0 <= k < i ==> charArray4[k] == pending[k]
    ensures output == output0 + DecodeGroups(done)
  {
    var inLenConst := |input|;
    var inLen := |input|;
    var pos: nat := 0;
    i := 0;
    done, pending, groups := [], [], 0;
    ghost var target := Taken(input);
    output := output0;

    while true
      invariant 0 <= i < 4 && |done| == 4 * groups && |pending| == i
      invariant pos <= |input| && |input| - pos <= inLen <= |input|
      invariant |input| > 0 ==> pos < |input| && target == done + pending + TakenFrom(input, pos)
      invariant |input| == 0 ==> done == [] && pending == []
      invariant forall k :: 0 <= k < i ==> charArray4[k] == pending[k]
      invariant output == output0 + DecodeGroups(done)
      decreases inLen
    {
      var more := inLen != 0;
      inLen := inLen - 1;
      var stop, next := NextBase64(input, inLenConst, pos, more, done, pending);
      if stop {
        break;
      }
      i, output, done, pending, groups := PushChar(charArray4, input[next], i, output, output0, done, pending, groups);
      pos := next + 1;
    }
  }

  /**
   * The outer loop's test `in_len-- && input[pos] != '='`, the inner skipping
   * loop and the `pos == inLenConst - 1` exit: whether the main loop stops,
   * and otherwise the position of the next character it consumes.
   */
  method NextBase64(input: string, inLenConst: nat, pos: nat, more: bool, ghost done: seq<char>, ghost pending: seq<char>)
    returns (stop: bool, next: nat)
    requires inLenConst == |input| && (more ==> pos < |input|)
    ensures stop && more ==> done + pending + TakenFrom(input, pos) == done + pending
    ensures !stop ==> more && pos <= next < |input| - 1
    ensures !stop ==> done + pending + TakenFrom(input, pos) == (done + pending + [input[next]]) + TakenFrom(input, next + 1)
  {
    if !more || input[pos] == '=' {
      if more {
        TakenStops(input, pos, done, pending);
      }
      return true, pos;
    }
    next := SkipNonBase64(input, pos);
    if next == inLenConst - 1 {
      TakenStops(input, pos, done, pending);
      return true, next;
    }
    TakenStep(input, pos, next, done, pending);
    stop := false;
  }

  /** The inner loop of base64Decode: skips characters outside the alphabet, never past the last one. */
  method SkipNonBase64(input: string, start: nat) returns (pos: nat)
    requires start < |input|
    ensures pos == SkipNoise(input, start)
  {
    pos := start;
    while !IsBase64(input[pos])
      invariant start <= pos < |input|
      invariant forall j :: start <= j < pos ==> !IsBase64(input[j])
      decreases |input| - pos
    {
      if pos < |input| - 1 {
        pos := pos + 1;
        continue;
      } else {
        break;
      }
    }
    SkipNoiseIsFirst(input, start, pos);
  }

  /**
   * The group conversion shared by both places in base64Decode: each character
   * becomes its index in the alphabet, and the four 6-bit values become the
   * three bytes of char_array_3.
   */
  method ConvertGroup(charArray4: array<char>) returns (charArray3: array<uint8>)
    requires charArray4.Length == 4
    ensures fresh(charArray3) && charArray3.Length == 3
    ensures charArray3[..] == DecodeGroup(charArray4[..])
  {
    var sextets := new uint8[4];
    for k := 0 to 4
      invariant forall m :: 0 <= m < k ==> sextets[m] == SextetOf(charArray4[m])
    {
      sextets[k] := SextetOf(charArray4[k]);
    }
    charArray3 := new uint8[3];
    // (c0 << 2) + ((c1 & 0x30) >> 4), and so on, stored into uint8_t
    charArray3[0] := (((sextets[0] as int) * 4 + (sextets[1] as int / 16) % 4) % 256) as uint8;
    charArray3[1] := (((sextets[1] as int % 16) * 16 + (sextets[2] as int / 4) % 16) % 256) as uint8;
    charArray3[2] := (((sextets[2] as int % 4) * 64 + sextets[3] as int) % 256) as uint8;
    SextetsAt(charArray4[..]);
  }

  /** ConvertGroup followed by the push_back loop for the first `count` bytes. */
  method EmitGroup(charArray4: array<char>, output: seq<uint8>, count: nat) returns (output': seq<uint8>)
    requires charArray4.Length == 4 && count <= 3
    ensures output' == output + DecodeGroup(charArray4[..])[..count]
  {
    var charArray3 := ConvertGroup(charArray4);
    output' := output;
    for k := 0 to count
      invariant output' == output + charArray3[..k]
    {
      output' := output' + [charArray3[k]];
    }
  }

  /**
   * One consumed character: stored at char_array_4[i++]; when that completes a
   * group, the group is decoded, its three bytes appended, and i reset to 0.
   */
  method PushChar(charArray4: array<char>, c: char, i: nat, output: seq<uint8>, ghost output0: seq<uint8>,
                  ghost done: seq<char>, ghost pending: seq<char>, ghost groups: nat)
    returns (i': nat, output': seq<uint8>, ghost done': seq<char>, ghost pending': seq<char>, ghost groups': nat)
    requires charArray4.Length == 4 && i < 4 && |done| == 4 * groups && |pending| == i
    requires forall k :: 0 <= k < i ==> charArray4[k] == pending[k]
    requires output == output0 + DecodeGroups(done)
    modifies charArray4
    ensures done' + pending' == done + pending + [c]
    ensures i' < 4 && |done'| == 4 * groups' && |pending'| == i'
    ensures forall k :: 0 <= k < i' ==> charArray4[k] == pending'[k]
    ensures output' == output0 + DecodeGroups(done')
  {
    charArray4[i] := c;
    i' := i + 1;
    pending' := pending + [c];
    done', groups', output' := done, groups, output;
    if i' == 4 {
      assert charArray4[..] == pending';
      GroupStep(done, pending', groups);
      output' := EmitGroup(charArray4, output, 3);
      done' := done + pending';
      pending' := [];
      groups' := groups + 1;
      i' := 0;
    }
  }

  /** The `if (i)` block: pads the partial group with NULs and pushes i - 1 bytes. */
  method EmitTail(charArray4: array<char>, output: seq<uint8>, i: nat, ghost pending: seq<char>)
    returns (output': seq<uint8>)
    requires charArray4.Length == 4 && 0 < i < 4 && |pending| == i
    requires forall k :: 0 <= k < i ==> charArray4[k] == pending[k]
    modifies charArray4
    ensures output' == output + DecodeTail(pending)
  {
    for j := i to 4
      invariant forall k :: 0 <= k < i ==> charArray4[k] == pending[k]
      invariant forall k :: i <= k < j ==> charArray4[k] == '\0'
    {
      charArray4[j] := '\0';
    }
    assert charArray4[..] == pending + seq(4 - i, _ => '\0');
    output' := EmitGroup(charArray4, output, i - 1);
  }

  /** Sextets looks every character up on its own. */
  lemma {:induction false} SextetsAt(t: seq<char>)
    ensures forall k :: 0 <= k < |t| ==> Sextets(t)[k] == SextetOf(t[k])
  {
    if t != [] {
      SextetsAt(t[1..]);
    }
  }

  /** The skipping loop stops exactly where SkipNoise says. */
  lemma SkipNoiseIsFirst(s: string, p: nat, q: nat)
    requires p <= q < |s|
    requires forall j :: p <= j < q ==> !IsBase64(s[j])
    requires IsBase64(s[q]) || q == |s| - 1
    ensures SkipNoise(s, p) == q
    decreases q - p
  {
    if p < q {
      SkipNoiseIsFirst(s, p + 1, q);
    }
  }

  /** One character consumed: it moves from the rest of the input to the consumed ones. */
  lemma TakenStep(s: string, p: nat, q: nat, done: seq<char>, pending: seq<char>)
    requires p < |s| && s[p] != '=' && q == SkipNoise(s, p) && q < |s| - 1
    ensures done + pending + TakenFrom(s, p) == (done + pending + [s[q]]) + TakenFrom(s, q + 1)
  {
  }

  /** The skipping loop reached the last character: nothing more is consumed. */
  lemma TakenStops(s: string, p: nat, done: seq<char>, pending: seq<char>)
    requires p < |s| && (s[p] == '=' || SkipNoise(s, p) == |s| - 1)
    ensures done + pending + TakenFrom(s, p) == done + pending
  {
  }

  /** Whole groups are decoded independently. */
  lemma {:induction false} DecodeGroupsAppend(done: seq<char>, q: seq<char>, g: nat)
    requires |done| == 4 * g && |q| == 4
    ensures DecodeGroups(done + q) == DecodeGroups(done) + DecodeGroup(q)
  {
    if g == 0 {
      assert done + q == q;
      assert q[..4] == q && q[4..] == [];
    } else {
      assert (done + q)[..4] == done[..4];
      assert (done + q)[4..] == done[4..] + q;
      DecodeGroupsAppend(done[4..], q, g - 1);
    }
  }

  /** A completed group appends its three bytes. */
  lemma GroupStep(done: seq<char>, q: seq<char>, g: nat)
    requires |done| == 4 * g && |q| == 4
    ensures DecodeGroups(done + q) == DecodeGroups(done) + DecodeGroup(q)[..3]
  {
    DecodeGroupsAppend(done, q, g);
  }

  /** What the decoder has consumed when it stops: whole groups, then a partial one. */
  lemma TailStep(done: seq<char>, t: seq<char>, g: nat)
    requires |done| == 4 * g && |t| < 4
    ensures DecodeTaken(done + t) == DecodeGroups(done) + DecodeTail(t)
  {
    var n := |done + t| / 4 * 4;
    assert n == |done|;
    assert (done + t)[..n] == done && (done + t)[n..] == t;
  }
}
