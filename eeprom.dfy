/**
 * The emulated chip as the firmware runs it: one 32768-byte array, filled
 * with the start-up pattern once and then changed in place, cell by cell,
 * by the write transactions the dispatch loop services.
 */
module Device {
  import opened Transaction
  import opened Dispatch

  class Eeprom {
    /** The chip's contents, one byte per address. */
    var cells: array<bv8>

    ghost predicate Valid()
      reads this
    {
      cells.Length == Size
    }

    /** Start-up: every cell i holds the byte sum of i's low and high byte. */
    constructor ()
      ensures Valid() && fresh(cells)
      ensures forall i :: 0 <= i < Size ==> cells[i] == InitPattern(i as bv16)
    {
      var a := new bv8[Size];
      var i := 0;
      while i < Size
        invariant i <= Size
        invariant forall j :: 0 <= j < i ==> a[j] == InitPattern(j as bv16)
      {
        var w := i as bv16;
        a[i] := (((w & 0xff) + (w >> 8)) & 0xff) as bv8;
        TruncatedSum(w);
        i := i + 1;
      }
      cells := a;
    }

    /**
     * One pass of the dispatch loop's body: a read sends back the cell at the
     * address and changes nothing, a write stores the data byte there.
     */
    method Step(op: bv32) returns (resp: Option<bv8>)
      requires Valid()
      modifies cells
      ensures Valid()
      ensures StepResult(cells[..], resp) == Apply(old(cells[..]), op)
    {
      var adr := Adr(op);
      if op & 0x04 == 0 {
        resp := Some(cells[adr]);
      } else {
        cells[adr] := DataByte(op);
        resp := None;
      }
    }

    /**
     * The dispatch loop over a finite sequence of words, serviced one at a
     * time in delivery order; the bytes sent back are collected in order.
     */
    method Serve(ops: seq<bv32>) returns (responses: seq<bv8>)
      requires Valid()
      modifies cells
      ensures Valid()
      ensures RunResult(cells[..], responses) == Run(old(cells[..]), ops)
    {
      ghost var start, ts := cells[..], DecodeAll(ops);
      responses := [];
      var k := 0;
      while k < |ops|
        invariant 0 <= k <= |ops|
        invariant Valid()
        invariant RunResult(cells[..], responses) == ServiceAll(start, ts[..k])
      {
        ghost var sofar := RunResult(cells[..], responses);
        assert ts[k] == Decode(ops[k]);
        var resp := Step(ops[k]);
        ServiceAllPrefix(start, ts, k, sofar, StepResult(cells[..], resp));
        responses := responses + Emitted(resp);
        k := k + 1;
      }
      assert ts[..|ops|] == ts;
    }
  }
}
