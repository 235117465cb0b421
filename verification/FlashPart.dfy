/** The flash controller as the driver sees it. A read cycle may fail; a program cycle
    clears bits and may fail part-way; an erase works or leaves the sector alone. The
    ghost `trail` records the contents after every program or erase cycle, so it lists
    exactly the contents at which power may be lost. The other ghost fields count what failed. */
module FlashHardware {
  import opened FlashSpec
  import opened FlashBits

  /** How a cycle ended: well, with an error, or not at all. */
  datatype Ending = Good | Error | Endless

  class FlashPart {
    const g: Geometry
    const tears: bool
    var cells: Cells
    ghost var trail: seq<Cells>
    ghost var misreads: nat      // read cycles that failed
    ghost var stuck: nat         // cycles that could not be started or did not end
    ghost var programErrors: nat // program cycles that ended with an error
    ghost var eraseErrors: nat   // erase cycles that ended with an error

    ghost predicate Valid()
      reads this
    {
      g.Valid() && |cells| == 2 * g.bankWords
    }

    constructor (g: Geometry, tears: bool, cells: Cells)
      requires g.Valid() && |cells| == 2 * g.bankWords
      ensures Valid() && this.g == g && this.tears == tears && this.cells == cells
      ensures trail == [] && misreads == stuck == programErrors == eraseErrors == 0
    {
      this.g, this.tears, this.cells := g, tears, cells;
      trail, misreads, stuck, programErrors, eraseErrors := [], 0, 0, 0, 0;
    }

    /** Whether the controller takes a program or erase cycle. */
    method Start() returns (ok: bool)
      modifies this`stuck
      ensures stuck == old(stuck) + if ok then 0 else 1
    {
      ok := *;
      if !ok { stuck := stuck + 1; }
    }

    method ReadByte(off: nat) returns (ok: bool, v: bv8)
      requires Valid() && off < 2 * |cells|
      modifies this`misreads
      ensures misreads == old(misreads) + if ok then 0 else 1
      ensures ok ==> v == HalfOf(cells[off / 2], off % 2)
    {
      ok := *;
      v := HalfOf(cells[off / 2], off % 2);
      if !ok { misreads := misreads + 1; }
    }

    method ReadWord(w: nat) returns (ok: bool, v: bv16)
      requires Valid() && w < |cells|
      modifies this`misreads
      ensures misreads == old(misreads) + if ok then 0 else 1
      ensures ok ==> v == cells[w]
    {
      ok := *;
      v := cells[w];
      if !ok { misreads := misreads + 1; }
    }

    /** A 32-bit read of words w and w+1. */
    method ReadDword(w: nat) returns (ok: bool, v: bv32)
      requires Valid() && w + 1 < |cells|
      modifies this`misreads
      ensures misreads == old(misreads) + if ok then 0 else 1
      ensures ok ==> v == Dword(cells[w], cells[w + 1])
    {
      ok := *;
      v := Dword(cells[w], cells[w + 1]);
      if !ok { misreads := misreads + 1; }
    }

    /** What one cell holds after a program cycle; the stuck bits are up to the part. */
    method ProgramCell(o: bv16, m: bv16, ok: bool) returns (n: bv16)
      ensures Landed(o, m, n, tears)
      ensures ok ==> n == Masked(o, m)
    {
      WholeCell(o, m, tears);
      LandedNothing(o, m, tears);
      n := Masked(o, m);
      if !ok {
        if tears {
          var stuck: bv16 := *;
          TornCell(o, m, stuck);
          n := o & (m | stuck);
        } else if * {
          n := o;
        }
      }
    }

    /** One program cycle inside word w. */
    method ProgramWord(w: nat, m: bv16) returns (end: Ending)
      requires Valid() && w < |cells|
      modifies this`cells, this`trail, this`stuck, this`programErrors
      ensures Valid() && cells == old(cells)[w := cells[w]]
      ensures Landed(old(cells)[w], m, cells[w], tears)
      ensures end.Good? ==> cells[w] == Masked(old(cells)[w], m)
      ensures trail == old(trail) + [cells]
      ensures stuck == old(stuck) + if end.Endless? then 1 else 0
      ensures programErrors == old(programErrors) + if end.Error? then 1 else 0
    {
      end := *;
      var c := ProgramCell(cells[w], m, end.Good?);
      cells := cells[w := c];
      trail := trail + [cells];
      if end.Endless? { stuck := stuck + 1; }
      if end.Error? { programErrors := programErrors + 1; }
    }

    /** One program cycle over words w and w+1. */
    method ProgramDword(w: nat, m: bv16, m1: bv16) returns (end: Ending)
      requires Valid() && w + 1 < |cells|
      modifies this`cells, this`trail, this`stuck, this`programErrors
      ensures Valid()
      ensures cells == old(cells)[w := cells[w]][w + 1 := cells[w + 1]]
      ensures Landed(old(cells)[w], m, cells[w], tears) && Landed(old(cells)[w + 1], m1, cells[w + 1], tears)
      ensures end.Good? ==> cells[w] == Masked(old(cells)[w], m) && cells[w + 1] == Masked(old(cells)[w + 1], m1)
      ensures trail == old(trail) + [cells]
      ensures stuck == old(stuck) + if end.Endless? then 1 else 0
      ensures programErrors == old(programErrors) + if end.Error? then 1 else 0
    {
      end := *;
      var c := ProgramCell(cells[w], m, end.Good?);
      var c1 := ProgramCell(cells[w + 1], m1, end.Good?);
      cells := cells[w := c][w + 1 := c1];
      trail := trail + [cells];
      if end.Endless? { stuck := stuck + 1; }
      if end.Error? { programErrors := programErrors + 1; }
    }

    method Erase(bank: nat) returns (end: Ending)
      requires Valid() && bank <= 1
      modifies this`cells, this`trail, this`stuck, this`eraseErrors
      ensures Valid()
      ensures cells == if end.Good? then Erased(g, old(cells), bank) else old(cells)
      ensures trail == old(trail) + [cells]
      ensures stuck == old(stuck) + if end.Endless? then 1 else 0
      ensures eraseErrors == old(eraseErrors) + if end.Error? then 1 else 0
    {
      end := *;
      if end.Good? { cells := Erased(g, cells, bank); }
      trail := trail + [cells];
      if end.Endless? { stuck := stuck + 1; }
      if end.Error? { eraseErrors := eraseErrors + 1; }
    }
  }
}
