/**
 The mutable board of hexz/engine.go: one flat array of cells and, per row, the
 slice of that array that makes up the row.
 */
module Boards {
  import opened Cells
  import opened HexBoard

  /** A Go sub-slice flat[start:end]. */
  datatype Slice = Slice(start: int, end: int)

  ghost predicate RowSlices(d: Dims, rows: seq<Slice>)
  {
    && |rows| == d.rows
    && forall r :: 0 <= r < d.rows ==> rows[r] == Slice(RowStart(d, r), RowStart(d, r + 1))
  }

  /** makeFields: the slices of the rows are consecutive and use up the flat array. */
  method MakeFields(d: Dims) returns (flat: array<Field>, rows: seq<Slice>)
    ensures fresh(flat) && flat.Length == Size(d)
    ensures forall i :: 0 <= i < flat.Length ==> flat[i] == EMPTY
    ensures RowSlices(d, rows)
  {
    var numFields := d.width * ((d.rows + 1) / 2) + (d.width - 1) * (d.rows / 2);
    RowStartFormula(d, d.rows);
    flat := new Field[numFields](_ => EMPTY);
    rows := [];
    var start := 0;
    for i := 0 to d.rows
      invariant forall k :: 0 <= k < flat.Length ==> flat[k] == EMPTY
      invariant |rows| == i && start == RowStart(d, i)
      invariant forall r :: 0 <= r < i ==> rows[r] == Slice(RowStart(d, r), RowStart(d, r + 1))
    {
      RowStartStep(d, i);
      var end := start + d.width - i % 2;
      rows := rows + [Slice(start, end)];
      start := end;
    }
  }

  class Board {
    const d: Dims
    var flat: array<Field>
    var fields: seq<Slice>
    var turn: int
    var move: int
    var lastRevealed: int
    var score: Two<int>
    var pieces: Two<Pieces>
    var state: GameState

    ghost predicate Valid()
      reads this
    {
      flat.Length == Size(d) && RowSlices(d, fields)
    }

    /** NewBoard, with two players' scores and resources already allocated. */
    constructor (d: Dims)
      ensures Valid() && fresh(flat) && this.d == d
      ensures forall i :: 0 <= i < flat.Length ==> flat[i] == EMPTY
      ensures turn == 1 && move == 0 && lastRevealed == 0 && score == Two(0, 0) && state == Initial
    {
      this.d := d;
      var f, rows := MakeFields(d);
      flat, fields := f, rows;
      turn, move, lastRevealed := 1, 0, 0;
      score := Two(0, 0);
      pieces := Two([0, 0, 0, 0, 0, 0, 0, 0], [0, 0, 0, 0, 0, 0, 0, 0]);
      state := Initial;
    }

    constructor Make(d: Dims, flat: array<Field>, fields: seq<Slice>, turn: int, move: int, lastRevealed: int,
                     score: Two<int>, pieces: Two<Pieces>, state: GameState)
      ensures this.d == d && this.flat == flat && this.fields == fields && this.turn == turn && this.move == move
      ensures this.lastRevealed == lastRevealed && this.score == score && this.pieces == pieces && this.state == state
    {
      this.d, this.flat, this.fields, this.turn, this.move := d, flat, fields, turn, move;
      this.lastRevealed, this.score, this.pieces, this.state := lastRevealed, score, pieces, state;
    }

    predicate IsValidIdx(x: Idx)
      reads this
      requires Valid()
      ensures IsValidIdx(x) <==> OnBoard(d, x)
    {
      RowStartStep(d, if 0 <= x.r < |fields| then x.r else 0);
      0 <= x.r < |fields| && 0 <= x.c < fields[x.r].end - fields[x.r].start
    }

    /** Where Fields[x.r][x.c] lives in the flat array. */
    function Slot(x: Idx): (i: nat)
      reads this
      requires Valid() && OnBoard(d, x)
      ensures i == Flat(d, x) < flat.Length
    {
      RowInRange(d, x);
      assert fields[x.r] == Slice(RowStart(d, x.r), RowStart(d, x.r + 1));
      fields[x.r].start + x.c
    }

    /** Board.neighbors with its six-element buffer, as the filled part of the buffer. */
    method NeighborsOf(x: Idx) returns (ns: seq<Idx>)
      requires Valid() && OnBoard(d, x)
      ensures Flat(d, x) < |GraphOf(d)| && |ns| == |GraphOf(d)[Flat(d, x)]| <= 6
      ensures forall k :: 0 <= k < |ns| ==> OnBoard(d, ns[k]) && Flat(d, ns[k]) == GraphOf(d)[Flat(d, x)][k]
      ensures forall y :: y in ns <==> OnBoard(d, y) && Adjacent(x, y)
      ensures forall i, j :: 0 <= i < j < |ns| ==> InStepOrder(x, ns[i], ns[j])
    {
      GraphMatches(d, x);
      var buffer := new Idx[6](_ => x);
      var n := FillNeighbors(d, x, buffer);
      ns := buffer[..n];
    }

    /** copyFields: a fresh flat array, re-sliced with the same row lengths. */
    method CopyFields() returns (f: array<Field>, rows: seq<Slice>)
      requires Valid()
      ensures fresh(f) && f[..] == flat[..]
      ensures RowSlices(d, rows)
    {
      f := new Field[flat.Length](i requires 0 <= i < flat.Length reads this, flat => flat[i]);
      rows := [];
      var start := 0;
      for i := 0 to |fields|
        invariant |rows| == i && start == RowStart(d, i)
        invariant forall r :: 0 <= r < i ==> rows[r] == Slice(RowStart(d, r), RowStart(d, r + 1))
      {
        var end := start + (fields[i].end - fields[i].start);
        rows := rows + [Slice(start, end)];
        start := end;
      }
    }

    /** A deep copy: equal in content, sharing no array. */
    method Copy() returns (b: Board)
      requires Valid()
      ensures fresh(b) && fresh(b.flat) && b.Valid() && b.d == d
      ensures b.flat[..] == flat[..] && b.turn == turn && b.move == move && b.lastRevealed == lastRevealed
      ensures b.score == score && b.pieces == pieces && b.state == state
    {
      var f, rows := CopyFields();
      b := new Board.Make(d, f, rows, turn, move, lastRevealed, score, pieces, state);
    }
  }
}
