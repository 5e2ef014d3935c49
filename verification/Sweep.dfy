/**
`disassemble_and_rewrite` of src/main.c: a linear sweep that overwrites every
ecall it decodes with `jalr gp, gp, 0`, in the very buffer it is decoding. The
disassembler is any function of the bytes from the current position to the end.
*/
module Sweep {
  import opened Isa

  /** `len` is 0 when decoding failed. */
  datatype Decoded = Decoded(len: nat, isEcall: bool)

  type Decoder = seq<byte> -> Decoded

  const ECALL: seq<byte> := [0x73, 0x00, 0x00, 0x00]
  const JALR: seq<byte> := [0xe7, 0x81, 0x01, 0x00]

  /** An instruction is at least two bytes, lies in the buffer, and is an ecall only if it reads as one. */
  ghost predicate ValidDecoder(d: Decoder) {
    forall s: seq<byte> ::
      && d(s).len <= |s| && d(s).len != 1
      && (d(s).isEcall && d(s).len > 0 ==> d(s).len == 4 && s[..4] == ECALL)
  }

  /** The words written and overwritten are what the ISA calls them. */
  lemma WordsAreInstructions()
    ensures Decode32(0x0000_0073) == Ecall && Decode32(0x0001_81e7) == Jalr(GP, GP, 0)
    ensures 0x73 + 0x100 * (0x00 + 0x100 * (0x00 + 0x100 * 0x00)) == 0x0000_0073
    ensures 0xe7 + 0x100 * (0x81 + 0x100 * (0x01 + 0x100 * 0x00)) == 0x0001_81e7
  {
  }

  // ---- The sweep of a pristine copy -------------------------------------

  datatype Step = Failed | Plain(len: nat) | Site

  function StepLen(s: Step): nat {
    match s
    case Failed => 1
    case Plain(len) => len
    case Site => 4
  }

  /** What the sweep finds at the start of `s`. */
  ghost function FirstStep(d: Decoder, s: seq<byte>): (r: Step)
    requires ValidDecoder(d) && s != []
    ensures 1 <= StepLen(r) <= |s|
  {
    var x := d(s);
    if x.len == 0 then Failed else if x.isEcall then Site else Plain(x.len)
  }

  /** The steps of the sweep; their lengths are the boundaries it visits. */
  ghost function Trace(d: Decoder, s: seq<byte>): seq<Step>
    requires ValidDecoder(d)
    decreases |s|
  {
    if s == [] then [] else [FirstStep(d, s)] + Trace(d, s[StepLen(FirstStep(d, s))..])
  }

  /** The bytes the sweep leaves. */
  ghost function Rewritten(d: Decoder, s: seq<byte>): (r: seq<byte>)
    requires ValidDecoder(d)
    ensures |r| == |s|
    decreases |s|
  {
    if s == [] then []
    else
      var n := StepLen(FirstStep(d, s));
      (if FirstStep(d, s).Site? then JALR else s[..n]) + Rewritten(d, s[n..])
  }

  // ---- In place ---------------------------------------------------------

  /** `done` is what the sweep has made of the first `p` bytes. */
  ghost predicate SweptTo(d: Decoder, image: seq<byte>, done: seq<byte>, p: nat)
    requires ValidDecoder(d)
  {
    p <= |image| && |done| == p && done + Rewritten(d, image[p..]) == Rewritten(d, image)
  }

  /** The bytes a step leaves. */
  ghost function StepBytes(d: Decoder, s: seq<byte>): seq<byte>
    requires ValidDecoder(d) && s != []
  {
    if FirstStep(d, s).Site? then JALR else s[..StepLen(FirstStep(d, s))]
  }

  lemma SweptFurther(d: Decoder, image: seq<byte>, done: seq<byte>, p: nat)
    requires ValidDecoder(d) && SweptTo(d, image, done, p) && p < |image|
    ensures SweptTo(d, image, done + StepBytes(d, image[p..]), p + StepLen(FirstStep(d, image[p..])))
  {
    var rest := image[p..];
    var n := StepLen(FirstStep(d, rest));
    assert rest[n..] == image[p + n..];
    var tail := Rewritten(d, rest[n..]);
    assert (done + StepBytes(d, rest)) + tail == done + (StepBytes(d, rest) + tail);
  }

  /** Before position `p` the buffer is swept, from there on it is pristine. */
  ghost predicate Midway(code: array<byte>, d: Decoder, image: seq<byte>, p: nat)
    requires ValidDecoder(d)
    reads code
  {
    && p <= code.Length == |image|
    && code[p..] == image[p..]
    && SweptTo(d, image, code[..p], p)
  }

  lemma MidwayAfter(code: array<byte>, d: Decoder, image: seq<byte>, done: seq<byte>, p: nat)
    requires ValidDecoder(d) && p < code.Length == |image| && SweptTo(d, image, done, p)
    requires var n := StepLen(FirstStep(d, image[p..]));
             code[..] == done + StepBytes(d, image[p..]) + image[p..][n..]
    ensures Midway(code, d, image, p + StepLen(FirstStep(d, image[p..])))
  {
    var rest := image[p..];
    var n := StepLen(FirstStep(d, rest));
    SweptFurther(d, image, done, p);
    hide SweptTo;
    var s := code[..];
    assert s[..p + n] == done + StepBytes(d, rest) && s[p + n..] == rest[n..];
    assert code[..p + n] == s[..p + n] && code[p + n..] == s[p + n..];
    assert rest[n..] == image[p + n..];
  }

  lemma MidwayStart(code: array<byte>, d: Decoder)
    requires ValidDecoder(d)
    ensures Midway(code, d, code[..], 0)
  {
    assert code[..][0..] == code[..];
  }

  lemma MidwayEnd(code: array<byte>, d: Decoder, image: seq<byte>)
    requires ValidDecoder(d) && Midway(code, d, image, code.Length)
    ensures code[..] == Rewritten(d, image)
  {
    assert image[|image|..] == [];
    assert code[..code.Length] == code[..];
  }

  /** A step that patches nothing. */
  lemma MidwayUnpatched(code: array<byte>, d: Decoder, image: seq<byte>, p: nat)
    requires ValidDecoder(d) && Midway(code, d, image, p) && p < code.Length && !FirstStep(d, image[p..]).Site?
    ensures Midway(code, d, image, p + StepLen(FirstStep(d, image[p..])))
  {
    var rest := image[p..];
    var n := StepLen(FirstStep(d, rest));
    assert code[..] == code[..p] + code[p..];
    assert rest == rest[..n] + rest[n..];
    MidwayAfter(code, d, image, code[..p], p);
  }

  /** What the disassembler reports at `p` is the next step of the sweep of the pristine image. */
  lemma MidwayDecodes(code: array<byte>, d: Decoder, image: seq<byte>, p: nat)
    requires ValidDecoder(d) && Midway(code, d, image, p) && p < code.Length
    ensures var x, f := d(code[p..]), FirstStep(d, image[p..]);
            && f == (if x.len == 0 then Failed else if x.isEcall then Site else Plain(x.len))
            && StepLen(f) == (if x.len == 0 then 1 else x.len) && p + StepLen(f) <= code.Length
  {
  }

  /** `steps` are those of the sweep before position `p`. */
  ghost predicate TracedTo(d: Decoder, image: seq<byte>, steps: seq<Step>, p: nat)
    requires ValidDecoder(d)
  {
    p <= |image| && steps + Trace(d, image[p..]) == Trace(d, image)
  }

  lemma TracedFurther(d: Decoder, image: seq<byte>, steps: seq<Step>, p: nat)
    requires ValidDecoder(d) && TracedTo(d, image, steps, p) && p < |image|
    ensures TracedTo(d, image, steps + [FirstStep(d, image[p..])], p + StepLen(FirstStep(d, image[p..])))
  {
    var rest := image[p..];
    var f := FirstStep(d, rest);
    assert rest[StepLen(f)..] == image[p + StepLen(f)..];
    assert (steps + [f]) + Trace(d, rest[StepLen(f)..]) == steps + ([f] + Trace(d, rest[StepLen(f)..]));
  }

  lemma TracedAll(d: Decoder, image: seq<byte>, steps: seq<Step>)
    requires ValidDecoder(d)
    ensures TracedTo(d, image, [], 0)
    ensures TracedTo(d, image, steps, |image|) ==> steps == Trace(d, image)
  {
    assert image[0..] == image && image[|image|..] == [];
    assert [] + Trace(d, image) == Trace(d, image);
    assert steps + [] == steps;
  }

  /**
  The code as it runs: decode, patch and go on in one buffer. It visits the
  boundaries, and leaves the bytes, that sweeping a pristine copy would.
  */
  method DisassembleAndRewrite(code: array<byte>, d: Decoder) returns (ghost steps: seq<Step>)
    requires ValidDecoder(d)
    modifies code
    ensures code[..] == Rewritten(d, old(code[..]))
    ensures steps == Trace(d, old(code[..]))
  {
    hide Midway, Rewritten, ValidDecoder, FirstStep, Trace, TracedTo;
    var p := 0;
    ghost var image := code[..];
    steps := [];
    MidwayStart(code, d);
    TracedAll(d, image, []);
    while p < code.Length
      invariant p <= code.Length == |image| && Midway(code, d, image, p) && TracedTo(d, image, steps, p)
      decreases code.Length - p
    {
      var x := d(code[p..]);
      MidwayDecodes(code, d, image, p);
      TracedFurther(d, image, steps, p);
      steps := steps + [if x.len == 0 then Failed else if x.isEcall then Site else Plain(x.len)];
      if x.len == 0 {
        MidwayUnpatched(code, d, image, p);
        p := p + 1;
        continue;
      }
      if x.isEcall {
        PatchSite(code, d, image, p);
      } else {
        MidwayUnpatched(code, d, image, p);
      }
      p := p + x.len;
    }
    MidwayEnd(code, d, image);
    TracedAll(d, image, steps);
  }

  /** Overwriting an ecall where it was decoded. */
  method PatchSite(code: array<byte>, ghost d: Decoder, ghost image: seq<byte>, p: nat)
    requires ValidDecoder(d) && Midway(code, d, image, p) && p < code.Length && FirstStep(d, image[p..]).Site?
    requires p + 4 <= code.Length
    modifies code
    ensures Midway(code, d, image, p + 4)
  {
    ghost var done := code[..p];
    assert code[p + 4..] == code[p..][4..];
    PatchWord(code, p);
    MidwayAfter(code, d, image, done, p);
  }

  /** `*(uint32_t *)address = 0x000181e7`, least significant byte first. */
  method PatchWord(code: array<byte>, p: nat)
    requires p + 4 <= code.Length
    modifies code
    ensures code[..] == old(code[..p]) + JALR + old(code[p + 4..])
    ensures code[..p + 4] == old(code[..p]) + JALR && code[p + 4..] == old(code[p + 4..])
  {
    code[p], code[p + 1], code[p + 2], code[p + 3] := 0xe7, 0x81, 0x01, 0x00;
  }

  // ---- Exactly the visited ecalls change --------------------------------

  datatype Offset = NoSite | At(o: nat)

  /** Position `i` is byte `o` of an ecall the sweep visits. */
  ghost function SiteOffset(d: Decoder, s: seq<byte>, i: nat): (r: Offset)
    requires ValidDecoder(d) && i < |s|
    ensures r.At? ==> r.o < 4
    decreases |s|
  {
    var n := StepLen(FirstStep(d, s));
    if i >= n then SiteOffset(d, s[n..], i - n)
    else if FirstStep(d, s).Site? then At(i) else NoSite
  }

  lemma {:induction false} OnlyVisitedEcallsChange(d: Decoder, s: seq<byte>, i: nat)
    requires ValidDecoder(d) && i < |s|
    ensures match SiteOffset(d, s, i)
            case At(o) => s[i] == ECALL[o] && Rewritten(d, s)[i] == JALR[o]
            case NoSite => Rewritten(d, s)[i] == s[i]
    decreases |s|
  {
    var n := StepLen(FirstStep(d, s));
    if i >= n {
      OnlyVisitedEcallsChange(d, s[n..], i - n);
    } else if FirstStep(d, s).Site? {
      assert s[i] == s[..4][i];
    }
  }

  /** A sweep leaves an image alone exactly when it visits no ecall. */
  lemma {:induction false} SweepLeavesAloneIff(d: Decoder, s: seq<byte>)
    requires ValidDecoder(d)
    ensures Rewritten(d, s) == s <==> Site !in Trace(d, s)
    decreases |s|
  {
    hide Rewritten, Trace, ValidDecoder, FirstStep;
    if s == [] {
      NothingToSweep(d);
    } else {
      var f, t := FirstStep(d, s), Rewritten(d, s);
      var n := StepLen(f);
      SweepLeavesAloneIff(d, s[n..]);
      RewrittenTail(d, s);
      TraceHead(d, s);
      assert Site in [f] + Trace(d, s[n..]) <==> f == Site || Site in Trace(d, s[n..]);
      if f.Site? {
        FirstByteChanges(d, s);
      } else {
        assert t == t[..n] + t[n..] && s == s[..n] + s[n..];
      }
    }
  }

  lemma NothingToSweep(d: Decoder)
    requires ValidDecoder(d)
    ensures Rewritten(d, []) == [] && Trace(d, []) == []
  {
  }

  lemma TraceHead(d: Decoder, s: seq<byte>)
    requires ValidDecoder(d) && s != []
    ensures Trace(d, s) == [FirstStep(d, s)] + Trace(d, s[StepLen(FirstStep(d, s))..])
  {
  }

  lemma FirstByteChanges(d: Decoder, s: seq<byte>)
    requires ValidDecoder(d) && s != [] && FirstStep(d, s).Site?
    ensures Rewritten(d, s)[0] != s[0]
  {
    assert s[0] == s[..4][0];
  }

  // ---- Sweeping again ---------------------------------------------------

  /** Decoding depends on the instruction's own bytes only, and knows the patched word. */
  ghost predicate LocalDecoder(d: Decoder) {
    && (forall s: seq<byte>, t: seq<byte> ::
          d(s).len > 0 && d(s).len <= |t| && d(s).len <= |s| && t[..d(s).len] == s[..d(s).len] ==> d(t) == d(s))
    && (forall s: seq<byte> :: JALR <= s ==> d(s) == Decoded(4, false))
  }

  function Lengths(t: seq<Step>): seq<nat> {
    if t == [] then [] else [StepLen(t[0])] + Lengths(t[1..])
  }

  /** Every position where decoding failed still fails once the image is rewritten. */
  ghost predicate FailuresPersist(d: Decoder, s: seq<byte>)
    requires ValidDecoder(d)
    decreases |s|
  {
    s == [] ||
    (&& (FirstStep(d, s).Failed? ==> FirstStep(d, Rewritten(d, s)).Failed?)
     && FailuresPersist(d, s[StepLen(FirstStep(d, s))..]))
  }

  ghost predicate NoFailure(d: Decoder, s: seq<byte>)
    requires ValidDecoder(d)
    decreases |s|
  {
    s == [] || (!FirstStep(d, s).Failed? && NoFailure(d, s[StepLen(FirstStep(d, s))..]))
  }

  /** After a successful decode the same position decodes alike in the rewritten image, but for a patched ecall. */
  lemma FirstStepAgain(d: Decoder, s: seq<byte>)
    requires ValidDecoder(d) && LocalDecoder(d) && s != [] && !FirstStep(d, s).Failed?
    ensures var n := StepLen(FirstStep(d, s));
            && FirstStep(d, Rewritten(d, s)) == Plain(n)
            && Rewritten(d, s)[n..] == Rewritten(d, s[n..])
  {
    var n := StepLen(FirstStep(d, s));
    var t := Rewritten(d, s);
    if FirstStep(d, s).Site? {
      assert t[..4] == JALR;
      assert JALR <= t;
    } else {
      assert t[..n] == s[..n];
      assert d(t) == d(s);
    }
  }

  lemma RewrittenTail(d: Decoder, s: seq<byte>)
    requires ValidDecoder(d) && s != []
    ensures var n := StepLen(FirstStep(d, s));
            && Rewritten(d, s)[n..] == Rewritten(d, s[n..])
            && (!FirstStep(d, s).Site? ==> Rewritten(d, s)[..n] == s[..n])
  {
  }

  /** The second sweep's first step, and the image behind it. */
  lemma SecondFirstStep(d: Decoder, s: seq<byte>)
    requires ValidDecoder(d) && LocalDecoder(d) && s != []
    ensures var t, f := Rewritten(d, s), FirstStep(d, s);
            && (StepLen(FirstStep(d, t)) == StepLen(f) <==> (f.Failed? ==> FirstStep(d, t).Failed?))
            && (StepLen(FirstStep(d, t)) == StepLen(f) ==> FirstStep(d, t) == (if f.Failed? then f else Plain(StepLen(f))))
            && t[StepLen(f)..] == Rewritten(d, s[StepLen(f)..])
  {
    RewrittenTail(d, s);
    if !FirstStep(d, s).Failed? { FirstStepAgain(d, s); }
    hide Rewritten, LocalDecoder;
  }

  /**
  A second sweep visits the same boundaries exactly when every failed position
  still fails.
  */
  lemma {:induction false} SecondSweepSameBoundaries(d: Decoder, s: seq<byte>)
    requires ValidDecoder(d) && LocalDecoder(d)
    ensures Lengths(Trace(d, Rewritten(d, s))) == Lengths(Trace(d, s)) <==> FailuresPersist(d, s)
    decreases |s|
  {
    if s != [] {
      var n := StepLen(FirstStep(d, s));
      var t := Rewritten(d, s);
      SecondSweepSameBoundaries(d, s[n..]);
      LengthsOfTrace(d, s);
      LengthsOfTrace(d, t);
      SecondFirstStep(d, s);
      hide Rewritten, Trace, Lengths, LocalDecoder, FirstStep, ValidDecoder;
      var k := StepLen(FirstStep(d, t));
      SameHead(k, Lengths(Trace(d, t[k..])), n, Lengths(Trace(d, s[n..])));
    }
  }

  /** ... and then it finds no ecall. */
  lemma {:induction false} SecondSweepFindsNothing(d: Decoder, s: seq<byte>)
    requires ValidDecoder(d) && LocalDecoder(d) && FailuresPersist(d, s)
    ensures Site !in Trace(d, Rewritten(d, s))
    decreases |s|
  {
    if s != [] {
      var n := StepLen(FirstStep(d, s));
      var t := Rewritten(d, s);
      SecondSweepFindsNothing(d, s[n..]);
      SecondFirstStep(d, s);
      assert Trace(d, t) == [FirstStep(d, t)] + Trace(d, t[n..]);
    }
  }

  /**
  A second sweep changes nothing exactly when it visits no ecall in the rewritten
  image, which is so whenever every failed position still fails.
  */
  lemma SecondSweepChangesNothing(d: Decoder, s: seq<byte>)
    requires ValidDecoder(d) && LocalDecoder(d)
    ensures Rewritten(d, Rewritten(d, s)) == Rewritten(d, s) <==> Site !in Trace(d, Rewritten(d, s))
    ensures FailuresPersist(d, s) ==> Site !in Trace(d, Rewritten(d, s))
  {
    hide Rewritten, Trace, ValidDecoder, LocalDecoder, FailuresPersist;
    SweepLeavesAloneIff(d, Rewritten(d, s));
    if FailuresPersist(d, s) { SecondSweepFindsNothing(d, s); }
  }

  lemma SameHead(k: nat, a: seq<nat>, n: nat, b: seq<nat>)
    ensures [k] + a == [n] + b <==> k == n && a == b
  {
    if [k] + a == [n] + b {
      assert ([k] + a)[0] == ([n] + b)[0];
      assert ([k] + a)[1..] == a && ([n] + b)[1..] == b;
    }
  }

  lemma LengthsOfTrace(d: Decoder, s: seq<byte>)
    requires ValidDecoder(d) && s != []
    ensures var n := StepLen(FirstStep(d, s));
            Lengths(Trace(d, s)) == [n] + Lengths(Trace(d, s[n..]))
  {
    var n := StepLen(FirstStep(d, s));
    assert Trace(d, s)[1..] == Trace(d, s[n..]);
  }

  lemma {:induction false} DecodingPersists(d: Decoder, s: seq<byte>)
    requires ValidDecoder(d) && NoFailure(d, s)
    ensures FailuresPersist(d, s)
    decreases |s|
  {
    if s != [] { DecodingPersists(d, s[StepLen(FirstStep(d, s))..]); }
  }

  /** Where every position decodes, sweeping twice is sweeping once. */
  lemma SweepIsIdempotent(d: Decoder, s: seq<byte>)
    requires ValidDecoder(d) && LocalDecoder(d) && NoFailure(d, s)
    ensures Rewritten(d, Rewritten(d, s)) == Rewritten(d, s)
    ensures Lengths(Trace(d, Rewritten(d, s))) == Lengths(Trace(d, s))
  {
    DecodingPersists(d, s);
    SecondSweepSameBoundaries(d, s);
    SecondSweepChangesNothing(d, s);
  }

  // ---- Without that, sweeping twice can differ ----------------------------

  /** A small disassembler: some first bytes decode only before certain second bytes. */
  function SampleDecoder(s: seq<byte>): Decoded {
    if |s| >= 4 && s[0] == 0x73 && s[..4] == ECALL then Decoded(4, true)
    else if |s| >= 4 && (s[0] == 0xe7 || s[0] == 0x07 || (s[0] == 0x03 && s[1] == 0xe7)) then Decoded(4, false)
    else if |s| >= 2 && s[0] == 0x00 then Decoded(2, false)
    else Decoded(0, false)
  }

  lemma SampleIsLocal()
    ensures ValidDecoder(SampleDecoder) && LocalDecoder(SampleDecoder)
  {
    forall s: seq<byte>, t: seq<byte> | SampleDecoder(s).len > 0 && SampleDecoder(s).len <= |t| && SampleDecoder(s).len <= |s|
        && t[..SampleDecoder(s).len] == s[..SampleDecoder(s).len]
      ensures SampleDecoder(t) == SampleDecoder(s)
    {
      var n := SampleDecoder(s).len;
      assert t[0] == t[..n][0] == s[..n][0] == s[0];
      assert t[1] == t[..n][1] == s[..n][1] == s[1];
    }
    forall s: seq<byte> | JALR <= s
      ensures SampleDecoder(s) == Decoded(4, false)
    {
      assert s[..4] == JALR;
    }
  }

  ghost function SampleSweep(s: seq<byte>): seq<byte> {
    SampleIsLocal();
    Rewritten(SampleDecoder, s)
  }

  lemma SampleStep(s: seq<byte>, rest: seq<byte>)
    requires s != []
    ensures SampleDecoder(s).len == 0 && rest == s[1..] ==> SampleSweep(s) == s[..1] + SampleSweep(rest)
    ensures SampleDecoder(s) == Decoded(2, false) && rest == s[2..] ==> SampleSweep(s) == s[..2] + SampleSweep(rest)
    ensures SampleDecoder(s) == Decoded(4, false) && rest == s[4..] ==> SampleSweep(s) == s[..4] + SampleSweep(rest)
    ensures SampleDecoder(s) == Decoded(4, true) && rest == s[4..] ==> SampleSweep(s) == JALR + SampleSweep(rest)
  {
    SampleIsLocal();
    hide ValidDecoder, LocalDecoder, SampleDecoder;
    var d: Decoder := SampleDecoder;
    assert d(s) == SampleDecoder(s);
    var n := StepLen(FirstStep(d, s));
    assert SampleSweep(s) == (if FirstStep(d, s).Site? then JALR else s[..n]) + SampleSweep(s[n..]);
  }

  lemma SampleEnd()
    ensures SampleSweep([]) == []
  {
  }

  lemma SampleLast()
    ensures SampleSweep([0]) == [0]
  {
    hide SampleSweep;
    SampleEnd();
    assert SampleDecoder([0]).len == 0;
    SampleStep([0], []);
  }

  lemma SamplePlain()
    ensures SampleSweep([0x07, 0x73, 0, 0, 0]) == [0x07, 0x73, 0, 0, 0]
  {
    hide SampleSweep;
    var s: seq<byte> := [0x07, 0x73, 0, 0, 0];
    assert SampleDecoder(s) == Decoded(4, false);
    assert s[4..] == [0] && s[..4] == [0x07, 0x73, 0, 0];
    SampleLast();
    SampleStep(s, [0]);
    hide SampleDecoder;
    assert s[..4] + [0] == s;
  }

  lemma SampleSite()
    ensures SampleSweep([0x73, 0, 0, 0, 0x07, 0x73, 0, 0, 0]) == [0xe7, 0x81, 0x01, 0, 0x07, 0x73, 0, 0, 0]
  {
    hide SampleSweep;
    var s: seq<byte>, rest: seq<byte> := [0x73, 0, 0, 0, 0x07, 0x73, 0, 0, 0], [0x07, 0x73, 0, 0, 0];
    assert s[..4] == ECALL && s[4..] == rest;
    assert SampleDecoder(s) == Decoded(4, true);
    SamplePlain();
    SampleStep(s, rest);
    hide SampleDecoder;
    var whole: seq<byte> := [0xe7, 0x81, 0x01, 0, 0x07, 0x73, 0, 0, 0];
    assert whole == whole[..4] + whole[4..] && whole[..4] == JALR && whole[4..] == rest;
  }

  lemma SampleFirstSweep()
    ensures SampleSweep([0x03, 0x73, 0, 0, 0, 0x07, 0x73, 0, 0, 0]) == [0x03, 0xe7, 0x81, 0x01, 0, 0x07, 0x73, 0, 0, 0]
  {
    hide SampleSweep;
    var s: seq<byte> := [0x03, 0x73, 0, 0, 0, 0x07, 0x73, 0, 0, 0];
    var rest: seq<byte> := [0x73, 0, 0, 0, 0x07, 0x73, 0, 0, 0];
    assert s[1..] == rest && s[..1] == [0x03];
    assert SampleDecoder(s).len == 0;
    SampleSite();
    SampleStep(s, rest);
    hide SampleDecoder;
    var tail: seq<byte>, whole: seq<byte> := [0xe7, 0x81, 0x01, 0, 0x07, 0x73, 0, 0, 0], [0x03, 0xe7, 0x81, 0x01, 0, 0x07, 0x73, 0, 0, 0];
    assert whole == whole[..1] + whole[1..] && whole[..1] == s[..1] && whole[1..] == tail;
  }

  lemma SampleLateSite()
    ensures SampleSweep([0x73, 0, 0, 0]) == [0xe7, 0x81, 0x01, 0]
  {
    hide SampleSweep;
    var s: seq<byte> := [0x73, 0, 0, 0];
    assert s[..4] == ECALL && s[4..] == [];
    assert SampleDecoder(s) == Decoded(4, true);
    SampleEnd();
    SampleStep(s, []);
    hide SampleDecoder;
    assert JALR + [] == [0xe7, 0x81, 0x01, 0];
  }

  lemma SampleShort()
    ensures SampleSweep([0, 0x07, 0x73, 0, 0, 0]) == [0, 0x07, 0xe7, 0x81, 0x01, 0]
  {
    hide SampleSweep;
    var s: seq<byte>, rest: seq<byte> := [0, 0x07, 0x73, 0, 0, 0], [0x73, 0, 0, 0];
    assert s[2..] == rest && s[..2] == [0, 0x07];
    assert SampleDecoder(s) == Decoded(2, false);
    SampleLateSite();
    SampleStep(s, rest);
    hide SampleDecoder;
    var tail: seq<byte>, whole: seq<byte> := [0xe7, 0x81, 0x01, 0], [0, 0x07, 0xe7, 0x81, 0x01, 0];
    assert whole == whole[..2] + whole[2..] && whole[..2] == s[..2] && whole[2..] == tail;
  }

  lemma SampleSecondSweep()
    ensures SampleSweep([0x03, 0xe7, 0x81, 0x01, 0, 0x07, 0x73, 0, 0, 0])
            == [0x03, 0xe7, 0x81, 0x01, 0, 0x07, 0xe7, 0x81, 0x01, 0]
  {
    hide SampleSweep;
    var s: seq<byte>, rest: seq<byte> := [0x03, 0xe7, 0x81, 0x01, 0, 0x07, 0x73, 0, 0, 0], [0, 0x07, 0x73, 0, 0, 0];
    assert s[4..] == rest && s[..4] == [0x03, 0xe7, 0x81, 0x01];
    assert SampleDecoder(s) == Decoded(4, false);
    SampleShort();
    SampleStep(s, rest);
    hide SampleDecoder;
    var tail: seq<byte>, whole: seq<byte> := [0, 0x07, 0xe7, 0x81, 0x01, 0], [0x03, 0xe7, 0x81, 0x01, 0, 0x07, 0xe7, 0x81, 0x01, 0];
    assert whole == whole[..4] + whole[4..] && whole[..4] == s[..4] && whole[4..] == tail;
  }

  const SAMPLE: seq<byte> := [0x03, 0x73, 0, 0, 0, 0x07, 0x73, 0, 0, 0]
  const SAMPLE_ONCE: seq<byte> := [0x03, 0xe7, 0x81, 0x01, 0, 0x07, 0x73, 0, 0, 0]
  const SAMPLE_TWICE: seq<byte> := [0x03, 0xe7, 0x81, 0x01, 0, 0x07, 0xe7, 0x81, 0x01, 0]

  lemma SampleImages()
    ensures SampleSweep(SAMPLE) == SAMPLE_ONCE && SampleSweep(SAMPLE_ONCE) == SAMPLE_TWICE
  {
    hide SampleSweep;
    SampleFirstSweep();
    SampleSecondSweep();
  }

  lemma SampleImagesDiffer()
    ensures SAMPLE_TWICE != SAMPLE_ONCE
  {
    assert SAMPLE_TWICE[6] != SAMPLE_ONCE[6];
  }

  lemma SampleIs(s: seq<byte>)
    ensures ValidDecoder(SampleDecoder) && LocalDecoder(SampleDecoder)
    ensures SampleSweep(s) == Rewritten(SampleDecoder, s)
  {
    hide Rewritten, ValidDecoder, LocalDecoder;
    SampleIsLocal();
  }

  /** A failed position in front of an ecall: the second sweep decodes it, loses step and patches other bytes. */
  lemma SecondSweepMayDiffer()
    ensures ValidDecoder(SampleDecoder) && LocalDecoder(SampleDecoder)
    ensures Rewritten(SampleDecoder, Rewritten(SampleDecoder, SAMPLE)) != Rewritten(SampleDecoder, SAMPLE)
  {
    hide *;
    SampleIs(SAMPLE);
    SampleIs(SAMPLE_ONCE);
    SampleImages();
    SampleImagesDiffer();
  }
}
