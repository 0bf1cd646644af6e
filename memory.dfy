/**
 * The word-addressed main memory behind the external `mem_access`
 * function: one read and one write primitive, both always succeeding.
 */
module MainMemory {

  /** The word held at address `a`; a cell that was never written holds 0. */
  function Word(cells: map<int, int>, a: int): int
  {
    if a in cells then cells[a] else 0
  }

  class Memory {
    var cells: map<int, int>

    constructor (contents: map<int, int>)
      ensures cells == contents
    {
      cells := contents;
    }

    /** `mem_access(a, 0, _)`: a read returns the stored word and changes nothing. */
    method Read(a: int) returns (w: int)
      ensures w == Word(cells, a)
    {
      w := Word(cells, a);
    }

    /** `mem_access(a, 1, w)`: a write stores w at a and leaves every other cell alone. */
    method Write(a: int, w: int)
      modifies this
      ensures cells == old(cells)[a := w]
      ensures Word(cells, a) == w
      ensures forall b :: b != a ==> Word(cells, b) == Word(old(cells), b)
    {
      cells := cells[a := w];
    }
  }
}
