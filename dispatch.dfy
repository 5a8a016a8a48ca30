/**
 * The memory store and the dispatch loop as values: the 32768-byte contents
 * as a sequence of bytes, one serviced transaction as a function from the old
 * contents to the new contents and the response, and a finite run of the
 * loop over the words in the order the sampler delivers them. A word is first
 * decoded (module Transaction) and the decoded access is then serviced.
 */
module Dispatch {
  import opened Transaction

  datatype Option<T> = None | Some(value: T)

  /** The effect of one serviced word: the contents afterwards and the byte sent back, if any. */
  datatype StepResult = StepResult(mem: seq<bv8>, response: Option<bv8>)

  /** The effect of a run: the final contents and every byte sent back, in order. */
  datatype RunResult = RunResult(mem: seq<bv8>, responses: seq<bv8>)

  /**
   * Cell i of the start-up image: the low byte of i plus its high byte, in
   * byte arithmetic, so the sum wraps around modulo 256.
   */
  function InitPattern(i: bv16): (b: bv8)
  {
    (i & 0xff) as bv8 + (i >> 8) as bv8
  }

  /**
   * The start-up loop computes (i & 0xff) + (i >> 8) in a wider integer and
   * keeps the low byte when it stores the sum into a cell; that is the
   * wrapped byte sum.
   */
  lemma TruncatedSum(i: bv16)
    ensures (((i & 0xff) + (i >> 8)) & 0xff) as bv8 == InitPattern(i)
  {
  }

  /** The start-up image at the cells 0, 256 and 511. */
  lemma InitPatternSamples()
    ensures InitPattern(0) == 0 && InitPattern(256) == 1 && InitPattern(511) == 0
  {
  }

  /**
   * The image is a sequence of 256-byte pages. Inside a page each cell is one
   * more than the previous one (InitPatternInPage), and each page is the
   * previous page plus one (InitPatternNextPage), both modulo 256.
   */
  lemma InitPatternInPage(i: bv16)
    requires i & 0xff != 0xff
    ensures InitPattern(i + 1) == InitPattern(i) + 1
  {
  }

  lemma InitPatternNextPage(i: bv16)
    requires i < 0x8000 - 256
    ensures InitPattern(i + 256) == InitPattern(i) + 1
  {
  }

  /**
   * The memory store's side of one transaction. A read sends back the byte
   * at the address and changes nothing; a write stores the data byte at the
   * address, touches no other cell and sends nothing.
   */
  function Service(mem: seq<bv8>, t: Access): (r: StepResult)
    requires |mem| == Size
    ensures |r.mem| == Size
    ensures !t.write ==> r.response == Some(mem[t.adr]) && r.mem == mem
    ensures t.write ==> r.response == None && r.mem[t.adr] == t.data
    ensures forall i :: 0 <= i < Size && i != t.adr ==> r.mem[i] == mem[i]
  {
    if !t.write then
      StepResult(mem, Some(mem[t.adr]))
    else
      StepResult(mem[t.adr := t.data], None)
  }

  /** One pass of the dispatch loop: decode the word, then service it. */
  function Apply(mem: seq<bv8>, op: bv32): (r: StepResult)
    requires |mem| == Size
    ensures |r.mem| == Size
    ensures r.response.Some? <==> !IsWrite(op)
  {
    Service(mem, Decode(op))
  }

  /** A read word (bit 2 clear) sends back the byte at OPADR and changes nothing. */
  lemma ApplyRead(mem: seq<bv8>, op: bv32)
    requires |mem| == Size && !IsWrite(op)
    ensures Apply(mem, op) == StepResult(mem, Some(mem[Adr(op)]))
  {
  }

  /**
   * A write word (bit 2 set) sends nothing, stores OPDATA at OPADR and leaves
   * every other cell as it was.
   */
  lemma ApplyWrite(mem: seq<bv8>, op: bv32)
    requires |mem| == Size && IsWrite(op)
    ensures Apply(mem, op).response == None
    ensures |Apply(mem, op).mem| == Size && Apply(mem, op).mem[Adr(op)] == DataByte(op)
    ensures forall i :: 0 <= i < Size && i != Adr(op) ==> Apply(mem, op).mem[i] == mem[i]
  {
  }

  /** A write followed by a read of the same address sends back the written byte. */
  lemma ReadAfterWrite(mem: seq<bv8>, w: bv32, r: bv32)
    requires |mem| == Size
    requires IsWrite(w) && !IsWrite(r) && OpAddress(r) == OpAddress(w)
    ensures Apply(Apply(mem, w).mem, r).response == Some(DataByte(w))
  {
  }

  /** A second write to the same address wins: the first leaves no trace. */
  lemma WriteOverwrites(mem: seq<bv8>, w1: bv32, w2: bv32)
    requires |mem| == Size
    requires IsWrite(w1) && IsWrite(w2) && OpAddress(w1) == OpAddress(w2)
    ensures Apply(Apply(mem, w1).mem, w2) == Apply(mem, w2)
  {
  }

  /**
   * Dispatch depends on /R, the address and the data bits alone: words that
   * differ only in /W, /CS or the reserved bits have the same effect.
   */
  lemma ApplyIgnoresOtherBits(mem: seq<bv8>, op1: bv32, op2: bv32)
    requires |mem| == Size
    requires op1 & 0x7fff_ff04 == op2 & 0x7fff_ff04
    ensures Apply(mem, op1) == Apply(mem, op2)
  {
    DecodeIgnoresOtherBits(op1, op2);
  }

  /** Flipping /W or /CS changes the flag the trace reports and nothing the loop does. */
  lemma ApplyIgnoresStrobeAndSelect(mem: seq<bv8>, op: bv32)
    requires |mem| == Size
    ensures WriteStrobe(op ^ 0x08) != WriteStrobe(op) && Apply(mem, op ^ 0x08) == Apply(mem, op)
    ensures ChipSelect(op ^ 0x10) != ChipSelect(op) && Apply(mem, op ^ 0x10) == Apply(mem, op)
  {
    var w, c := op ^ 0x08, op ^ 0x10;
    assert w & 0x7fff_ff04 == op & 0x7fff_ff04;
    assert c & 0x7fff_ff04 == op & 0x7fff_ff04;
    assert WriteStrobe(w) != WriteStrobe(op) by { assert w & 0x08 != op & 0x08; }
    assert ChipSelect(c) != ChipSelect(op) by { assert c & 0x10 != op & 0x10; }
    ApplyIgnoresOtherBits(mem, w, op);
    ApplyIgnoresOtherBits(mem, c, op);
  }

  /** The bytes a step sends back: one for a read, none for a write. */
  function Emitted(response: Option<bv8>): (s: seq<bv8>)
    ensures |s| == if response.Some? then 1 else 0
    ensures response.Some? ==> s[0] == response.value
  {
    match response
    case None => []
    case Some(b) => [b]
  }

  /** The number of reads among the accesses. */
  function ReadCount(ts: seq<Access>): (n: nat)
    ensures n <= |ts|
  {
    if ts == [] then 0 else (if ts[0].write then 0 else 1) + ReadCount(ts[1..])
  }

  /** The reads of two batches together are the reads of the first plus those of the second. */
  lemma {:induction false} ReadCountAppend(a: seq<Access>, b: seq<Access>)
    decreases a
    ensures ReadCount(a + b) == ReadCount(a) + ReadCount(b)
  {
    if a == [] {
      assert a + b == b;
    } else {
      assert (a + b)[0] == a[0] && (a + b)[1..] == a[1..] + b;
      ReadCountAppend(a[1..], b);
    }
  }

  /**
   * Servicing a sequence of accesses one after the other: each against the
   * contents the previous ones left, the responses collected in order, one
   * per read.
   */
  function ServiceAll(mem: seq<bv8>, ts: seq<Access>): (r: RunResult)
    requires |mem| == Size
    ensures |r.mem| == Size
    ensures |r.responses| == ReadCount(ts)
    decreases |ts|
  {
    if ts == [] then
      RunResult(mem, [])
    else
      var s := Service(mem, ts[0]);
      var rest := ServiceAll(s.mem, ts[1..]);
      RunResult(rest.mem, Emitted(s.response) + rest.responses)
  }

  /** The decoded form of each word, in order. */
  function DecodeAll(ops: seq<bv32>): (ts: seq<Access>)
  {
    seq(|ops|, k requires 0 <= k < |ops| => Decode(ops[k]))
  }

  /** The dispatch loop over a finite sequence of words, in delivery order. */
  function Run(mem: seq<bv8>, ops: seq<bv32>): (r: RunResult)
    requires |mem| == Size
    ensures |r.mem| == Size
    ensures |r.responses| == ReadCount(DecodeAll(ops)) <= |ops|
  {
    ServiceAll(mem, DecodeAll(ops))
  }

  /** Servicing two batches one after the other is servicing their concatenation. */
  lemma {:induction false} ServiceAllAppend(mem: seq<bv8>, a: seq<Access>, b: seq<Access>)
    requires |mem| == Size
    decreases a
    ensures ServiceAll(mem, a + b).mem == ServiceAll(ServiceAll(mem, a).mem, b).mem
    ensures ServiceAll(mem, a + b).responses
         == ServiceAll(mem, a).responses + ServiceAll(ServiceAll(mem, a).mem, b).responses
  {
    if a == [] {
      assert a + b == b;
    } else {
      var s := Service(mem, a[0]);
      assert (a + b)[0] == a[0] && (a + b)[1..] == a[1..] + b;
      ServiceAllAppend(s.mem, a[1..], b);
      var e, ra := Emitted(s.response), ServiceAll(s.mem, a[1..]);
      assert e + ra.responses + ServiceAll(ra.mem, b).responses
          == e + (ra.responses + ServiceAll(ra.mem, b).responses);
    }
  }

  /** The last access is serviced against what the earlier ones left; its response comes last. */
  lemma ServiceAllSnoc(mem: seq<bv8>, ts: seq<Access>, t: Access)
    requires |mem| == Size
    ensures ServiceAll(mem, ts + [t])
         == RunResult(Service(ServiceAll(mem, ts).mem, t).mem,
                      ServiceAll(mem, ts).responses + Emitted(Service(ServiceAll(mem, ts).mem, t).response))
  {
    ServiceAllAppend(mem, ts, [t]);
    assert [t][1..] == [];
  }

  /** Servicing one more access extends the batch serviced so far by that access. */
  lemma ServiceAllPrefix(mem: seq<bv8>, ts: seq<Access>, k: nat, sofar: RunResult, next: StepResult)
    requires |mem| == Size && k < |ts|
    requires sofar == ServiceAll(mem, ts[..k])
    requires next == Service(sofar.mem, ts[k])
    ensures ServiceAll(mem, ts[..k + 1]) == RunResult(next.mem, sofar.responses + Emitted(next.response))
  {
    PrefixExtends(ts, k);
    ServiceAllSnoc(mem, ts[..k], ts[k]);
  }

  lemma PrefixExtends<T>(s: seq<T>, k: nat)
    requires k < |s|
    ensures s[..k + 1] == s[..k] + [s[k]]
  {
  }

  /** Running two batches of words one after the other is running their concatenation. */
  lemma RunAppend(mem: seq<bv8>, a: seq<bv32>, b: seq<bv32>)
    requires |mem| == Size
    ensures Run(mem, a + b).mem == Run(Run(mem, a).mem, b).mem
    ensures Run(mem, a + b).responses == Run(mem, a).responses + Run(Run(mem, a).mem, b).responses
  {
    assert DecodeAll(a + b) == DecodeAll(a) + DecodeAll(b);
    ServiceAllAppend(mem, DecodeAll(a), DecodeAll(b));
  }

  /** A cell that no access of the batch writes ends the batch as it started. */
  lemma {:induction false} ServiceAllFrame(mem: seq<bv8>, ts: seq<Access>, i: nat)
    requires |mem| == Size && i < Size
    requires forall k :: 0 <= k < |ts| && ts[k].write ==> ts[k].adr != i
    decreases ts
    ensures ServiceAll(mem, ts).mem[i] == mem[i]
  {
    if ts != [] {
      assert forall k :: 0 <= k < |ts| - 1 ==> ts[1..][k] == ts[k + 1];
      ServiceAllFrame(Service(mem, ts[0]).mem, ts[1..], i);
    }
  }

  /** A cell that no write word of the run addresses ends the run as it started. */
  lemma RunFrame(mem: seq<bv8>, ops: seq<bv32>, i: nat)
    requires |mem| == Size && i < Size
    requires forall k :: 0 <= k < |ops| && IsWrite(ops[k]) ==> Adr(ops[k]) != i
    ensures Run(mem, ops).mem[i] == mem[i]
  {
    ServiceAllFrame(mem, DecodeAll(ops), i);
  }

  /**
   * A batch of reads changes nothing, and its k-th response is the byte at
   * the k-th access's address.
   */
  lemma {:induction false} ServiceAllReads(mem: seq<bv8>, ts: seq<Access>)
    requires |mem| == Size
    requires forall k :: 0 <= k < |ts| ==> !ts[k].write
    decreases ts
    ensures ServiceAll(mem, ts).mem == mem
    ensures |ServiceAll(mem, ts).responses| == |ts|
    ensures forall k :: 0 <= k < |ts| ==> ServiceAll(mem, ts).responses[k] == mem[ts[k].adr]
  {
    if ts != [] {
      assert forall k :: 0 <= k < |ts| - 1 ==> ts[1..][k] == ts[k + 1];
      ServiceAllReads(mem, ts[1..]);
    }
  }

  /**
   * A run of read words changes nothing, and its k-th response is the byte
   * at the k-th word's address.
   */
  lemma RunOfReads(mem: seq<bv8>, ops: seq<bv32>)
    requires |mem| == Size
    requires forall k :: 0 <= k < |ops| ==> !IsWrite(ops[k])
    ensures Run(mem, ops).mem == mem
    ensures |Run(mem, ops).responses| == |ops|
    ensures forall k :: 0 <= k < |ops| ==> Run(mem, ops).responses[k] == mem[Adr(ops[k])]
  {
    ServiceAllReads(mem, DecodeAll(ops));
  }

  /**
   * The scenario: write 0xAB at 0x1234, then read 0x1234; the read sends back
   * 0xAB and the cell keeps it.
   */
  lemma WriteThenReadScenario(mem: seq<bv8>)
    requires |mem| == Size
    ensures Run(mem, [Encode(0x1234, 0xab, true), Encode(0x1234, 0x00, false)])
         == RunResult(mem[0x1234 := 0xab], [0xab])
  {
    var w, r := Encode(0x1234, 0xab, true), Encode(0x1234, 0x00, false);
    DecodeEncode(0x1234, 0xab, true);
    DecodeEncode(0x1234, 0x00, false);
    var ts := DecodeAll([w, r]);
    assert ts == [Decode(w)] + [Decode(r)];
    ServiceAllSnoc(mem, [Decode(w)], Decode(r));
  }
}
