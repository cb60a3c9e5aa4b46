/** Walking a NUL-terminated byte string one encoded character at a time (utf8_ops.c). */
module Utf8 {
  import opened Basics
  import opened EditScripts

  /** A C string without its terminating NUL: `CharAt` reads 0 at the end. */
  type CString = b: seq<byte> | forall k :: 0 <= k < |b| ==> b[k] != 0

  const CHARACTER_RANGE: nat := 0x1_0000_0000

  function CharAt(b: CString, i: nat): byte
    requires i <= |b|
  {
    if i < |b| then b[i] else 0
  }

  predicate IsContinuation(b: byte) { b / 64 == 2 }

  /** How many bytes the lead byte announces, 0 for a continuation byte. */
  function SequenceLength(lead: byte): nat {
    if lead < 0x80 then 1
    else if lead / 0x20 == 0x6 then 2
    else if lead / 0x10 == 0xe then 3
    else if lead / 0x08 == 0x1e then 4
    else if lead / 0x04 == 0x3e then 5
    else if lead / 0x04 == 0x3f then 6
    else 0
  }

  /** The bits of the lead byte that belong to the character, masks 7f 1f 0f 07 03 03. */
  function LeadBits(lead: byte): nat {
    match SequenceLength(lead)
    case 1 => lead % 0x80
    case 2 => lead % 0x20
    case 3 => lead % 0x10
    case 4 => lead % 0x08
    case _ => lead % 0x04
  }

  /** At most `left` continuation bytes shifted into `acc`; a wrong byte gives 0 and stays unread. */
  function Tail(b: CString, pos: nat, left: nat, acc: Character): (r: (Character, nat))
    requires pos <= |b|
    ensures pos <= r.1 <= |b|
    decreases left
  {
    if pos == |b| || left == 0 then (acc, pos)
    else if !IsContinuation(b[pos]) then (0, pos)
    else Tail(b, pos + 1, left - 1, (acc * 64 + b[pos] % 64) % CHARACTER_RANGE)
  }

  /** The character at `pos` and the position behind it. */
  function Step(b: CString, pos: nat): (r: (Character, nat))
    ensures r.1 <= |b|
    ensures pos < |b| ==> pos < r.1
  {
    if pos >= |b| then (0, |b|)
    else
      var n := SequenceLength(b[pos]);
      if n == 0 then (0, pos + 1) else Tail(b, pos + 1, n - 1, LeadBits(b[pos]))
  }

  method Advance(b: CString, pos: nat) returns (retval: Character, next: nat)
    ensures (retval, next) == Step(b, pos)
  {
    if pos >= |b| { return 0, |b|; }
    var seqLen := SequenceLength(b[pos]);
    next := pos + 1;
    if seqLen == 0 { return 0, next; }
    retval := LeadBits(b[pos]);
    var z := 0;
    while next < |b| && z < seqLen - 1
      invariant pos < next <= |b| && 0 <= z <= seqLen - 1
      invariant Tail(b, next, seqLen - 1 - z, retval) == Step(b, pos)
      decreases seqLen - 1 - z
    {
      var code := b[next];
      if !IsContinuation(code) { return 0, next; }
      retval := (retval * 64 + code % 64) % CHARACTER_RANGE;
      z := z + 1;
      next := next + 1;
    }
  }

  /** The position after `n` characters from `pos`. */
  function After(b: CString, pos: nat, n: nat): (r: nat)
    requires pos <= |b|
    ensures r <= |b|
    decreases n
  {
    if n == 0 then pos else After(b, Step(b, pos).1, n - 1)
  }

  /** The `n` characters read one after the other from `pos`; NUL for each one past the end. */
  function Characters(b: CString, pos: nat, n: nat): (r: Text)
    requires pos <= |b|
    ensures |r| == n
    decreases n
  {
    if n == 0 then [] else [Step(b, pos).0] + Characters(b, Step(b, pos).1, n - 1)
  }

  lemma {:induction false} CharacterAt(b: CString, pos: nat, n: nat, k: nat)
    requires pos <= |b| && k < n
    ensures Characters(b, pos, n)[k] == Step(b, After(b, pos, k)).0
    ensures After(b, pos, k + 1) == Step(b, After(b, pos, k)).1
    decreases n
  {
    hide Step;
    if k > 0 { CharacterAt(b, Step(b, pos).1, n - 1, k - 1); }
  }

  /** `Advance` on a cursor that has read `k` characters of `x`. */
  method ReadCharacter(b: CString, pos: nat, ghost x: Text, ghost k: nat) returns (c: Character, next: nat)
    requires k < |x| && x == Characters(b, 0, |x|) && pos == After(b, 0, k)
    ensures c == x[k] && next == After(b, 0, k + 1)
  {
    CharacterAt(b, 0, |x|, k);
    c, next := Advance(b, pos);
  }

  // ----- encoding -----

  /** `c` without its low `6 * k` bits. */
  function High(c: nat, k: nat): (r: nat)
    ensures r <= c
  {
    if k == 0 then c else High(c / 64, k - 1)
  }

  /** `k` continuation bytes carrying the low `6 * k` bits of `c`. */
  function Continuations(c: nat, k: nat): (r: seq<byte>)
    ensures |r| == k
    ensures forall i :: 0 <= i < k ==> IsContinuation(r[i])
  {
    if k == 0 then [] else Continuations(c / 64, k - 1) + [0x80 + c % 64]
  }

  function EncodedLength(c: Character): (n: nat)
    ensures 1 <= n <= 6
  {
    if c < 0x80 then 1 else if c < 0x800 then 2 else if c < 0x1_0000 then 3
    else if c < 0x20_0000 then 4 else if c < 0x400_0000 then 5 else 6
  }

  /** The marker bits of a lead byte announcing `n` bytes. */
  function LeadMark(n: nat): nat
    requires 1 <= n <= 6
  {
    [0, 0xc0, 0xe0, 0xf0, 0xf8, 0xfc][n - 1]
  }

  /** The patterns of the table at the head of utf8_ops.c, one to six bytes. */
  function Encode(c: Character): (r: CString)
    requires c != 0
    ensures |r| == EncodedLength(c)
  {
    var n := EncodedLength(c);
    LeadFits(c);
    [LeadMark(n) + High(c, n - 1)] + Continuations(c, n - 1)
  }

  lemma HighByDivision(c: nat)
    ensures High(c, 0) == c && High(c, 1) == c / 0x40 && High(c, 2) == c / 0x1000
    ensures High(c, 3) == c / 0x4_0000 && High(c, 4) == c / 0x100_0000 && High(c, 5) == c / 0x4000_0000
  {
    var d := c / 64 / 64;
    assert High(c, 3) == High(d, 1) == d / 64;
    assert High(c, 4) == High(d, 2) == d / 64 / 64;
    assert High(c, 5) == High(d, 3) == High(d / 64 / 64, 1) == d / 64 / 64 / 64;
  }

  lemma LeadFits(c: Character)
    requires c != 0
    ensures var n := EncodedLength(c); var lead := LeadMark(n) + High(c, n - 1);
            0 < lead < 256 && SequenceLength(lead) == n && LeadBits(lead) == High(c, n - 1)
  {
    HighByDivision(c);
  }

  function EncodeAll(cs: Text): (r: CString)
    requires 0 !in cs
  {
    if cs == [] then [] else Encode(cs[0]) + EncodeAll(cs[1..])
  }

  lemma {:induction false} TailReadsContinuations(b: CString, pos: nat, k: nat, c: Character)
    requires pos + k <= |b| && b[pos..pos + k] == Continuations(c, k)
    ensures Tail(b, pos, k, High(c, k)) == (c, pos + k)
    decreases k
  {
    if k > 0 {
      hide Tail;
      hide High;
      hide Continuations;
      ContinuationHead(c, k);
      assert b[pos] == b[pos..pos + k][0];
      assert b[pos + 1..pos + k] == b[pos..pos + k][1..];
      TailReadsContinuations(b, pos + 1, k - 1, c);
      TailTakesOne(b, pos, k, High(c, k), High(c, k - 1));
    }
  }

  lemma TailTakesOne(b: CString, pos: nat, left: nat, acc: Character, acc': Character)
    requires pos < |b| && left > 0 && acc' == acc * 64 + acc' % 64
    requires b[pos] == 0x80 + acc' % 64
    ensures Tail(b, pos, left, acc) == Tail(b, pos + 1, left - 1, acc')
  {}

  /** The first of `k` continuation bytes holds digit `k - 1` of `c` in base 64. */
  lemma {:induction false} ContinuationHead(c: nat, k: nat)
    requires k > 0
    ensures Continuations(c, k)[0] == 0x80 + High(c, k - 1) % 64
    ensures Continuations(c, k)[1..] == Continuations(c, k - 1)
    ensures High(c, k - 1) == High(c, k) * 64 + High(c, k - 1) % 64
  {
    if k > 1 {
      ContinuationHead(c / 64, k - 1);
      assert Continuations(c, k)[1..] == Continuations(c / 64, k - 1)[1..] + [0x80 + c % 64];
    }
  }

  /** One call reads back one encoded character, whatever follows it. */
  lemma StepReadsEncoded(b: CString, pos: nat, c: Character)
    requires c != 0 && pos + EncodedLength(c) <= |b|
    requires b[pos..pos + EncodedLength(c)] == Encode(c)
    ensures Step(b, pos) == (c, pos + EncodedLength(c))
  {
    var n := EncodedLength(c);
    LeadFits(c);
    assert b[pos] == b[pos..pos + n][0];
    assert b[pos + 1..pos + n] == b[pos..pos + n][1..];
    TailReadsContinuations(b, pos + 1, n - 1, c);
  }

  /** Repeated calls return exactly the encoded characters and stop at the end of the string. */
  lemma {:induction false} DecodeEncodeAll(cs: Text, b: CString, pos: nat)
    requires 0 !in cs && pos <= |b| && b[pos..] == EncodeAll(cs)
    ensures Characters(b, pos, |cs|) == cs
    ensures After(b, pos, |cs|) == |b|
    decreases cs
  {
    hide Step;
    hide Encode;
    hide EncodedLength;
    if cs != [] {
      var n := EncodedLength(cs[0]);
      assert b[pos..pos + n] == b[pos..][..n] == Encode(cs[0]);
      assert b[pos + n..] == b[pos..][n..] == EncodeAll(cs[1..]);
      StepReadsEncoded(b, pos, cs[0]);
      DecodeEncodeAll(cs[1..], b, pos + n);
    }
  }

  lemma {:induction false} AsciiIsItself(cs: Text)
    requires forall k :: 0 <= k < |cs| ==> 0 < cs[k] < 0x80
    ensures 0 !in cs && EncodeAll(cs) == cs
  {
    if cs != [] {
      AsciiIsItself(cs[1..]);
      assert Encode(cs[0]) == [cs[0]];
      assert cs == [cs[0]] + cs[1..];
    }
  }

  // ----- counting -----

  function Plus(k: nat, n: Option<nat>): Option<nat> { if n.None? then None else Some(k + n.value) }

  /**
   The characters counted from `pos` on by leaping from lead byte to lead byte; None if a leap is from a
   byte that announces nothing, where the program stays forever, or beyond the end of the string.
   */
  function Counted(b: CString, pos: nat): (n: Option<nat>)
    requires pos <= |b|
    ensures n.Some? ==> n.value <= |b| - pos
    decreases |b| - pos
  {
    if pos == |b| then Some(0)
    else if SequenceLength(b[pos]) == 0 || pos + SequenceLength(b[pos]) > |b| then None
    else Plus(1, Counted(b, pos + SequenceLength(b[pos])))
  }

  lemma CountedStep(b: CString, pos: nat)
    requires pos < |b|
    ensures var n := SequenceLength(b[pos]);
            Counted(b, pos) == if n == 0 || pos + n > |b| then None else Plus(1, Counted(b, pos + n))
    ensures b[pos] < 0x80 ==> Counted(b, pos) == Plus(1, Counted(b, pos + 1))
  {}

  lemma NothingLeft(b: CString)
    ensures Counted(b, |b|) == Some(0)
  {}

  /** Runs of ASCII are skipped in an inner loop and counted by the distance covered. */
  method Strlen(b: CString) returns (count: Option<nat>)
    ensures count == Counted(b, 0)
  {
    hide Counted;
    hide SequenceLength;
    NothingLeft(b);
    var i, iBefore := 0, 0;
    var n: nat := 0;
    i := SkipAscii(b, 0);
    n := n + (i - iBefore);
    while CharAt(b, i) != 0
      invariant i <= |b| && Counted(b, 0) == Plus(n, Counted(b, i))
      decreases |b| - i
    {
      CountedStep(b, i);
      if 0 < CharAt(b, i) < 0x80 {
        iBefore := i;
        i := i + 1;
        i := SkipAscii(b, i);
        n := n + (i - iBefore);
      } else {
        if SequenceLength(CharAt(b, i)) == 0 || i + SequenceLength(CharAt(b, i)) > |b| { return None; }
        i := i + SequenceLength(CharAt(b, i));
        n := n + 1;
      }
    }
    count := Some(n);
  }

  /** The inner loop: every ASCII byte is one character. */
  method SkipAscii(b: CString, start: nat) returns (i: nat)
    requires start <= |b|
    ensures start <= i <= |b| && (i < |b| ==> b[i] >= 0x80)
    ensures Counted(b, start) == Plus(i - start, Counted(b, i))
  {
    hide Counted;
    i := start;
    while 0 < CharAt(b, i) < 0x80
      invariant start <= i <= |b| && Counted(b, start) == Plus(i - start, Counted(b, i))
      decreases |b| - i
    {
      CountedStep(b, i);
      i := i + 1;
    }
  }

  lemma EncodeAllHead(cs: Text)
    requires 0 !in cs && cs != []
    ensures var b, n := EncodeAll(cs), EncodedLength(cs[0]);
            |b| >= n > 0 && SequenceLength(b[0]) == n && b[n..] == EncodeAll(cs[1..])
  {
    LeadFits(cs[0]);
  }

  /** Encoded characters are counted right. */
  lemma {:induction false} EncodedAreCounted(cs: Text, b: CString, pos: nat)
    requires 0 !in cs && pos <= |b| && b[pos..] == EncodeAll(cs)
    ensures Counted(b, pos) == Some(|cs|)
    decreases cs
  {
    hide *;
    if cs == [] {
      NothingEncoded();
      assert |b[pos..]| == 0;
      NothingLeft(b);
    } else {
      EncodeAllHead(cs);
      var n := EncodedLength(cs[0]);
      TailOf(b, pos, n);
      EncodedAreCounted(cs[1..], b, pos + n);
      OneMoreCounted(b, pos, n, |cs| - 1);
    }
  }

  lemma NothingEncoded()
    ensures EncodeAll([]) == []
  {}

  lemma TailOf(b: CString, pos: nat, n: nat)
    requires pos <= |b| && n <= |b[pos..]|
    ensures pos + n <= |b| && b[pos..][n..] == b[pos + n..] && (pos < |b| ==> b[pos..][0] == b[pos])
  {}

  lemma OneMoreCounted(b: CString, pos: nat, n: nat, k: nat)
    requires pos < |b| && 0 < n == SequenceLength(b[pos]) && pos + n <= |b| && Counted(b, pos + n) == Some(k)
    ensures Counted(b, pos) == Some(k + 1)
  {
    hide SequenceLength;
  }

  /** A lead byte and as many bytes as it announces, whatever they are. */
  predicate IsUnit(u: CString) { u != [] && SequenceLength(u[0]) == |u| }

  function Units(units: seq<CString>): CString { if units == [] then [] else units[0] + Units(units[1..]) }

  /** Counting ends inside the string exactly if the string is made of such units, and counts them. */
  lemma CountedExactlyWhen(b: CString, n: nat)
    ensures Counted(b, 0) == Some(n)
       <==> exists units: seq<CString> :: |units| == n && (forall u :: u in units ==> IsUnit(u)) && Units(units) == b
  {
    if Counted(b, 0) == Some(n) {
      var units := UnitsOf(b, 0);
      assert b[0..] == b;
    }
    if units: seq<CString> :| |units| == n && (forall u :: u in units ==> IsUnit(u)) && Units(units) == b {
      assert b[0..] == b;
      UnitsAreCounted(units, b, 0);
    }
  }

  lemma {:induction false} UnitsOf(b: CString, pos: nat) returns (units: seq<CString>)
    requires pos <= |b| && Counted(b, pos).Some?
    ensures |units| == Counted(b, pos).value && (forall u :: u in units ==> IsUnit(u)) && Units(units) == b[pos..]
    decreases |b| - pos
  {
    units := [];
    if pos < |b| {
      var next := pos + SequenceLength(b[pos]);
      var more := UnitsOf(b, next);
      units := [b[pos..next]] + more;
      assert units[1..] == more && b[pos..] == b[pos..next] + b[next..];
    }
  }

  lemma {:induction false} UnitsAreCounted(units: seq<CString>, b: CString, pos: nat)
    requires pos <= |b| && b[pos..] == Units(units) && forall u :: u in units ==> IsUnit(u)
    ensures Counted(b, pos) == Some(|units|)
    decreases units
  {
    if units != [] {
      var n := |units[0]|;
      assert IsUnit(units[0]) && b[pos] == b[pos..][0] == units[0][0];
      assert b[pos + n..] == b[pos..][n..] == Units(units[1..]);
      UnitsAreCounted(units[1..], b, pos + n);
    }
  }

  /** The calls of `Advance` it takes to come to the end. */
  function Calls(b: CString, pos: nat): nat
    requires pos <= |b|
    decreases |b| - pos
  {
    if pos == |b| then 0 else 1 + Calls(b, Step(b, pos).1)
  }

  /** Every byte announced is a continuation byte. */
  predicate Complete(b: CString, pos: nat)
    requires pos <= |b| && Counted(b, pos).Some?
    decreases |b| - pos
  {
    pos == |b| ||
    var next := pos + SequenceLength(b[pos]);
    (forall k :: pos < k < next ==> IsContinuation(b[k])) && Complete(b, next)
  }

  lemma {:induction false} TailStops(b: CString, pos: nat, left: nat, acc: Character)
    requires pos <= |b|
    ensures var r := Tail(b, pos, left, acc).1;
            && r <= pos + left && (forall k :: pos <= k < r ==> IsContinuation(b[k]))
            && (r < pos + left && r < |b| ==> !IsContinuation(b[r]))
    decreases left
  {
    if pos < |b| && left > 0 && IsContinuation(b[pos]) {
      TailStops(b, pos + 1, left - 1, (acc * 64 + b[pos] % 64) % CHARACTER_RANGE);
    }
  }

  /** No call runs past a byte that is no continuation byte. */
  lemma {:induction false} CallsUpTo(b: CString, pos: nat, end: nat)
    requires pos < end <= |b| && (end < |b| ==> !IsContinuation(b[end]))
    ensures Calls(b, pos) >= 1 + Calls(b, end)
    decreases end - pos
  {
    var n, next := SequenceLength(b[pos]), Step(b, pos).1;
    if n > 0 { TailStops(b, pos + 1, n - 1, LeadBits(b[pos])); }
    hide Step;
    assert next <= end;
    if next < end { CallsUpTo(b, next, end); }
  }

  lemma CallsStep(b: CString, pos: nat)
    requires pos < |b|
    ensures Calls(b, pos) == 1 + Calls(b, Step(b, pos).1)
  {
    hide Step;
  }

  lemma CompleteStep(b: CString, pos: nat)
    requires pos < |b| && Counted(b, pos).Some?
    ensures var next := pos + SequenceLength(b[pos]);
            && next <= |b| && Counted(b, next).Some?
            && (Complete(b, pos) <==> (forall k :: pos < k < next ==> IsContinuation(b[k])) && Complete(b, next))
  {
    hide SequenceLength;
    hide IsContinuation;
  }

  /** Counting never lands on a continuation byte. */
  lemma UnitEnds(b: CString, pos: nat)
    requires pos <= |b| && Counted(b, pos).Some?
    ensures pos < |b| ==> !IsContinuation(b[pos])
  {}

  lemma StepInUnit(b: CString, pos: nat)
    requires pos < |b| && SequenceLength(b[pos]) > 0 && pos + SequenceLength(b[pos]) <= |b|
    ensures var end, next := pos + SequenceLength(b[pos]), Step(b, pos).1;
            pos < next <= end && (next == end <==> forall k :: pos < k < end ==> IsContinuation(b[k]))
  {
    hide SequenceLength;
    TailStops(b, pos + 1, SequenceLength(b[pos]) - 1, LeadBits(b[pos]));
    hide Tail;
    hide LeadBits;
    hide IsContinuation;
  }

  /** A string takes no fewer calls than are counted, and as many exactly if every byte announced is there. */
  lemma {:induction false} CountIsCallsExactlyWhen(b: CString, pos: nat)
    requires pos <= |b| && Counted(b, pos).Some?
    ensures Counted(b, pos).value <= Calls(b, pos)
    ensures Counted(b, pos).value == Calls(b, pos) <==> Complete(b, pos)
    decreases |b| - pos
  {
    if pos < |b| {
      hide Counted;
      hide Calls;
      hide Complete;
      hide SequenceLength;
      hide Step;
      var n, next := SequenceLength(b[pos]), Step(b, pos).1;
      CountedStep(b, pos);
      CountIsCallsExactlyWhen(b, pos + n);
      UnitEnds(b, pos + n);
      StepInUnit(b, pos);
      CallsStep(b, pos);
      CompleteStep(b, pos);
      if next < pos + n { CallsUpTo(b, next, pos + n); }
    }
  }
}
