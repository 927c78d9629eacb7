/**
 The encoder's packing of dictionary variables: pieces of the message laid end to end, with the offsets
 at which they end. The vectors belong to the encoder and are not emptied between calls.
 */
module Encoders {
  import opened Base

  const MAX_INT32 := 0x7FFF_FFFF

  /** The dictionary variables of one message, in order. */
  type Pieces = seq<Bytes>

  // ----- Packing -----

  function Concat(pieces: Pieces): Bytes {
    if pieces == [] then [] else pieces[0] + Concat(pieces[1..])
  }

  /** Where each piece ends if the first one begins at `from`. */
  function EndOffsets(from: nat, pieces: Pieces): (offsets: seq<nat>)
    ensures |offsets| == |pieces|
    decreases |pieces|
  {
    if pieces == [] then [] else [from + |pieces[0]|] + EndOffsets(from + |pieces[0]|, pieces[1..])
  }

  /** Cutting bytes at end offsets; what lies behind the last offset is not part of any piece. */
  function CutAt(from: nat, offsets: seq<nat>, packed: Bytes): Pieces
    requires Ascending(from, offsets, |packed|)
    decreases |offsets|
  {
    if offsets == [] then [] else [packed[from..offsets[0]]] + CutAt(offsets[0], offsets[1..], packed)
  }

  predicate Ascending(from: nat, offsets: seq<nat>, limit: nat)
    decreases |offsets|
  {
    if offsets == [] then from <= limit else from <= offsets[0] <= limit && Ascending(offsets[0], offsets[1..], limit)
  }

  lemma {:induction false} ConcatAdds(first: Pieces, second: Pieces)
    ensures Concat(first + second) == Concat(first) + Concat(second)
  {
    if first == [] {
      assert first + second == second;
    } else {
      assert (first + second)[1..] == first[1..] + second;
      ConcatAdds(first[1..], second);
    }
  }

  /** Appending a piece appends one offset, the sum of all lengths so far. */
  lemma {:induction false} EndOffsetsAdd(from: nat, pieces: Pieces, last: Bytes)
    ensures EndOffsets(from, pieces + [last])
            == EndOffsets(from, pieces) + [from + |Concat(pieces)| + |last|]
    decreases |pieces|
  {
    if pieces == [] {
      assert (pieces + [last])[1..] == [];
    } else {
      assert (pieces + [last])[1..] == pieces[1..] + [last];
      var next := from + |pieces[0]|;
      EndOffsetsAdd(next, pieces[1..], last);
      assert next + |Concat(pieces[1..])| == from + |Concat(pieces)|;
    }
  }

  /** The offsets are the sums of the lengths of the pieces up to each. */
  lemma {:induction false} OffsetsArePrefixSums(pieces: Pieces, i: nat)
    requires i < |pieces|
    ensures EndOffsets(0, pieces)[i] == |Concat(pieces[..i + 1])|
    decreases |pieces|
  {
    var front, last := pieces[..|pieces| - 1], pieces[|pieces| - 1];
    assert pieces == front + [last];
    EndOffsetsAdd(0, front, last);
    if i == |front| {
      ConcatAdds(front, [last]);
      assert pieces[..i + 1] == pieces;
    } else {
      OffsetsArePrefixSums(front, i);
      assert front[..i + 1] == pieces[..i + 1];
    }
  }

  /** Cutting undoes packing, whatever bytes lie around the pieces. */
  lemma {:induction false} CutUndoesPack(before: Bytes, pieces: Pieces, behind: Bytes)
    ensures var packed, offsets := before + Concat(pieces) + behind, EndOffsets(|before|, pieces);
            Ascending(|before|, offsets, |packed|) && CutAt(|before|, offsets, packed) == pieces
    decreases |pieces|
  {
    if pieces != [] {
      var head, tail := pieces[0], pieces[1..];
      var packed := before + Concat(pieces) + behind;
      CutUndoesPack(before + head, tail, behind);
      ConcatAssociates(before, head, Concat(tail));
      assert packed[|before|..|before + head|] == head;
      assert pieces == [head] + tail;
    }
  }

  /** Each piece lies between the end of the one before it and its own end. */
  lemma PieceLies(pieces: Pieces, behind: Bytes, i: nat)
    requires i < |pieces|
    ensures var packed, offsets := Concat(pieces) + behind, EndOffsets(0, pieces);
            var from := if i == 0 then 0 else offsets[i - 1];
            from <= offsets[i] <= |Concat(pieces)| && packed[from..offsets[i]] == pieces[i]
  {
    var front, piece, tail := pieces[..i], pieces[i], pieces[i + 1..];
    assert pieces == front + ([piece] + tail);
    ConcatAdds(front, [piece] + tail);
    assert ([piece] + tail)[1..] == tail;
    OffsetsArePrefixSums(pieces, i);
    if i > 0 {
      OffsetsArePrefixSums(pieces, i - 1);
    }
    assert pieces[..i + 1] == front + [piece];
    ConcatAdds(front, [piece]);
    assert Concat([piece]) == piece + Concat([]);
    LiesBehind(Concat(front), piece, Concat(tail), behind);
  }

  lemma LiesBehind(front: Bytes, piece: Bytes, tail: Bytes, behind: Bytes)
    ensures ((front + (piece + tail)) + behind)[|front|..|front| + |piece|] == piece
  {
  }

  // ----- Finding the pieces -----

  /** CLP's encoder reports the variables as begin and end positions, one pair each. */
  predicate InBounds(message: Bytes, positions: seq<nat>) {
    && |positions| % 2 == 0
    && forall i | 0 <= i < |positions| / 2 :: positions[2 * i] <= positions[2 * i + 1] <= |message|
  }

  function PieceAt(message: Bytes, positions: seq<nat>, i: nat): Bytes
    requires InBounds(message, positions) && i < |positions| / 2
  {
    message[positions[2 * i]..positions[2 * i + 1]]
  }

  function PiecesOf(message: Bytes, positions: seq<nat>, count: nat): (pieces: Pieces)
    requires InBounds(message, positions) && count <= |positions| / 2
    ensures |pieces| == count && forall i | 0 <= i < count :: pieces[i] == PieceAt(message, positions, i)
  {
    if count == 0 then []
    else PiecesOf(message, positions, count - 1) + [PieceAt(message, positions, count - 1)]
  }

  function AllPieces(message: Bytes, positions: seq<nat>): Pieces
    requires InBounds(message, positions)
  {
    PiecesOf(message, positions, |positions| / 2)
  }

  lemma {:induction false} SomeFit(message: Bytes, positions: seq<nat>, count: nat)
    requires InBounds(message, positions) && count <= |positions| / 2
    ensures |Concat(PiecesOf(message, positions, count))| <= |Concat(AllPieces(message, positions))|
    decreases |positions| / 2 - count
  {
    if count < |positions| / 2 {
      SomeFit(message, positions, count + 1);
      ConcatAdds(PiecesOf(message, positions, count), [PieceAt(message, positions, count)]);
    }
  }

  /** Variables that follow one another in a message fit an int32 cursor if the message does. */
  lemma {:induction false} OrderedPiecesFit(message: Bytes, positions: seq<nat>, count: nat)
    requires InBounds(message, positions) && count <= |positions| / 2
    requires forall i | 1 <= i < |positions| / 2 :: positions[2 * i - 1] <= positions[2 * i]
    ensures |Concat(PiecesOf(message, positions, count))| <= if count == 0 then 0 else positions[2 * count - 1]
    decreases count
  {
    if count > 0 {
      OrderedPiecesFit(message, positions, count - 1);
      var last := PieceAt(message, positions, count - 1);
      ConcatAdds(PiecesOf(message, positions, count - 1), [last]);
      assert Concat([last]) == last + Concat([]);
    }
  }

  // ----- The encoder -----

  /** The encoder's two vectors. */
  datatype Packed = Packed(dictVars: Bytes, endOffsets: seq<nat>)

  /** One call: its block goes in front of the bytes there are, its offsets behind the offsets there are. */
  function Add(p: Packed, pieces: Pieces): Packed {
    Packed(Concat(pieces) + p.dictVars, p.endOffsets + EndOffsets(0, pieces))
  }

  /** Cutting the bytes at the offsets a call appended gives what lies in the message between the `i`th pair of
      positions. */
  predicate ShowsAt(message: Bytes, positions: seq<nat>, before: Packed, after: Packed, i: nat)
    requires InBounds(message, positions) && i < |positions| / 2
    requires |after.endOffsets| == |before.endOffsets| + |positions| / 2
  {
    var k := |before.endOffsets| + i;
    var from := if i == 0 then 0 else after.endOffsets[k - 1];
    && from <= after.endOffsets[k] <= |after.dictVars|
    && after.dictVars[from..after.endOffsets[k]] == message[positions[2 * i]..positions[2 * i + 1]]
  }

  /** The call shows every pair; behind its last offset lie the bytes there were, in front of its first one the
      offsets there were. */
  predicate Shows(message: Bytes, positions: seq<nat>, before: Packed, after: Packed)
    requires InBounds(message, positions)
  {
    var count := |positions| / 2;
    && |after.endOffsets| == |before.endOffsets| + count
    && after.endOffsets[..|before.endOffsets|] == before.endOffsets
    && (forall i | 0 <= i < count :: ShowsAt(message, positions, before, after, i))
    && var end := if count == 0 then 0 else after.endOffsets[|after.endOffsets| - 1];
       end <= |after.dictVars| && after.dictVars[end..] == before.dictVars
  }

  lemma FoundIsPacked(message: Bytes, positions: seq<nat>, p: Packed)
    requires InBounds(message, positions)
    ensures Shows(message, positions, p, Add(p, AllPieces(message, positions)))
  {
    var pieces := AllPieces(message, positions);
    AddKeeps(p, pieces);
    forall i | 0 <= i < |positions| / 2
      ensures ShowsAt(message, positions, p, Add(p, pieces), i)
    {
      PieceLies(pieces, p.dictVars, i);
    }
  }

  /** What was packed before lies behind the new end, and its offsets in front of the new ones. */
  lemma AddKeeps(p: Packed, pieces: Pieces)
    ensures var q := Add(p, pieces);
            var end := if pieces == [] then 0 else q.endOffsets[|p.endOffsets| + |pieces| - 1];
            && q.endOffsets[..|p.endOffsets|] == p.endOffsets
            && end <= |q.dictVars| && q.dictVars[end..] == p.dictVars
  {
    if pieces != [] {
      OffsetsArePrefixSums(pieces, |pieces| - 1);
      assert pieces[..|pieces|] == pieces;
    }
  }

  class Encoder {
    var dictVars: Bytes
    var dictVarEndOffsets: seq<nat>

    constructor ()
      ensures View() == Packed([], [])
    {
      dictVars, dictVarEndOffsets := [], [];
    }

    function View(): Packed
      reads this
    {
      Packed(dictVars, dictVarEndOffsets)
    }

    /** Packs the dictionary variables that CLP's encoder found; it may fail instead. The cursor is an int32. */
    method EncodeLogMessage(message: Bytes, found: Option<seq<nat>>) returns (ok: bool)
      requires found.Some? ==> InBounds(message, found.value)
      requires found.Some? ==> |Concat(AllPieces(message, found.value))| <= MAX_INT32
      modifies this
      ensures ok == found.Some?
      ensures View() == if found.Some? then Add(old(View()), AllPieces(message, found.value)) else old(View())
      ensures found.Some? ==> Shows(message, found.value, old(View()), View())
    {
      if found.None? {
        return false;
      }
      var dictVarOffsets := found.value;
      ghost var before, k := View(), 0;
      var prevEndOff, i := 0, 0;
      while i < |dictVarOffsets|
        invariant i == 2 * k && k <= |dictVarOffsets| / 2
        invariant prevEndOff == |Concat(PiecesOf(message, dictVarOffsets, k))| <= MAX_INT32
        invariant View() == Add(before, PiecesOf(message, dictVarOffsets, k))
      {
        var beginPos, endPos := dictVarOffsets[i], dictVarOffsets[i + 1];
        TurnAdds(message, dictVarOffsets, before, k);
        dictVars := dictVars[..prevEndOff] + message[beginPos..endPos] + dictVars[prevEndOff..];
        prevEndOff := prevEndOff + (endPos - beginPos);
        dictVarEndOffsets := dictVarEndOffsets + [prevEndOff];
        i, k := i + 2, k + 1;
      }
      FoundIsPacked(message, dictVarOffsets, before);
      return true;
    }
  }

  /** One turn of the loop: the next variable goes behind the ones this call has packed. */
  lemma TurnAdds(message: Bytes, positions: seq<nat>, p: Packed, k: nat)
    requires InBounds(message, positions) && k < |positions| / 2
    ensures var done, piece := PiecesOf(message, positions, k), message[positions[2 * k]..positions[2 * k + 1]];
            var cursor, now := |Concat(done)|, Add(p, done);
            && cursor + |piece| == |Concat(PiecesOf(message, positions, k + 1))|
               <= |Concat(AllPieces(message, positions))|
            && Packed(now.dictVars[..cursor] + piece + now.dictVars[cursor..], now.endOffsets + [cursor + |piece|])
               == Add(p, PiecesOf(message, positions, k + 1))
  {
    AddGrows(p, PiecesOf(message, positions, k), PieceAt(message, positions, k));
    SomeFit(message, positions, k + 1);
  }

  /** Inserting a piece at the end of a call's block, and its end offset behind all others, adds it to the
      call's pieces. */
  lemma AddGrows(p: Packed, done: Pieces, piece: Bytes)
    ensures var cursor, now := |Concat(done)|, Add(p, done);
            && |Concat(done + [piece])| == cursor + |piece|
            && Add(p, done + [piece])
               == Packed(now.dictVars[..cursor] + piece + now.dictVars[cursor..], now.endOffsets + [cursor + |piece|])
  {
    ConcatAdds(done, [piece]);
    assert Concat([piece]) == piece + Concat([]);
    EndOffsetsAdd(0, done, piece);
    assert Concat(done + [piece]) == Concat(done) + piece;
    InsertAt(Concat(done), piece, p.dictVars);
    assert p.endOffsets + (EndOffsets(0, done) + [|Concat(done)| + |piece|])
           == p.endOffsets + EndOffsets(0, done) + [|Concat(done)| + |piece|];
  }

  lemma InsertAt(front: Bytes, piece: Bytes, back: Bytes)
    ensures (front + back)[..|front|] + piece + (front + back)[|front|..] == front + piece + back
  {
    assert (front + back)[..|front|] == front && (front + back)[|front|..] == back;
  }

  // ----- Several calls on one encoder -----

  /** The encoder's vectors after calls that found these pieces. */
  function AfterCalls(calls: seq<Pieces>): Packed {
    if calls == [] then Packed([], []) else Add(AfterCalls(calls[..|calls| - 1]), calls[|calls| - 1])
  }

  /** Every call's block, the last call's first. */
  function BlocksBackwards(calls: seq<Pieces>): Bytes {
    if calls == [] then [] else BlocksBackwards(calls[1..]) + Concat(calls[0])
  }

  /** Every call's offsets, counted from the front of its own block, the first call's first. */
  function OffsetsForwards(calls: seq<Pieces>): seq<nat> {
    if calls == [] then [] else EndOffsets(0, calls[0]) + OffsetsForwards(calls[1..])
  }

  lemma {:induction false} OneCallMore(calls: seq<Pieces>, last: Pieces)
    ensures BlocksBackwards(calls + [last]) == Concat(last) + BlocksBackwards(calls)
    ensures OffsetsForwards(calls + [last]) == OffsetsForwards(calls) + EndOffsets(0, last)
    decreases |calls|
  {
    if calls == [] {
      assert (calls + [last])[1..] == [];
    } else {
      var tail := calls[1..];
      assert (calls + [last])[1..] == tail + [last] && (calls + [last])[0] == calls[0];
      OneCallMore(tail, last);
      ConcatAssociates(Concat(last), BlocksBackwards(tail), Concat(calls[0]));
      assert OffsetsForwards(calls + [last]) == EndOffsets(0, calls[0]) + OffsetsForwards(tail + [last]);
    }
  }

  /** Blocks pile up in reverse order of the calls, offsets in order of the calls. */
  lemma {:induction false} CallsPileUp(calls: seq<Pieces>)
    ensures AfterCalls(calls) == Packed(BlocksBackwards(calls), OffsetsForwards(calls))
    decreases |calls|
  {
    if calls != [] {
      var front, last := calls[..|calls| - 1], calls[|calls| - 1];
      assert calls == front + [last];
      CallsPileUp(front);
      OneCallMore(front, last);
    }
  }

  /** Cutting the packed bytes at the offsets of the last call alone gives the last call's pieces. On a fresh
      encoder these are all the offsets there are. */
  lemma LastCallCuts(calls: seq<Pieces>, last: Pieces)
    ensures var p, offsets := AfterCalls(calls + [last]), EndOffsets(0, last);
            && p.endOffsets == AfterCalls(calls).endOffsets + offsets
            && Ascending(0, offsets, |p.dictVars|) && CutAt(0, offsets, p.dictVars) == last
            && (calls == [] ==> p.endOffsets == offsets && p.dictVars == Concat(last))
  {
    assert (calls + [last])[..|calls|] == calls;
    CutUndoesPack([], last, AfterCalls(calls).dictVars);
    assert [] + Concat(last) == Concat(last);
  }

  /** What a call returns shows its own message, and nothing else, exactly when no earlier call on the encoder
      found a variable. */
  lemma ViewIsOwnIff(calls: seq<Pieces>, last: Pieces)
    ensures AfterCalls(calls + [last]) == AfterCalls([last]) <==> forall i | 0 <= i < |calls| :: calls[i] == []
  {
    var p := AfterCalls(calls);
    assert (calls + [last])[..|calls|] == calls && [last][..0] == [];
    NothingFoundIff(calls);
    assert AfterCalls([last]) == Add(Packed([], []), last);
    assert p.endOffsets == [] && p.dictVars == [] ==> Add(p, last) == Add(Packed([], []), last);
    assert |Add(p, last).endOffsets| == |p.endOffsets| + |last|;
  }

  lemma {:induction false} NothingFoundIff(calls: seq<Pieces>)
    ensures AfterCalls(calls).endOffsets == [] <==> forall i | 0 <= i < |calls| :: calls[i] == []
    ensures AfterCalls(calls).endOffsets == [] ==> AfterCalls(calls).dictVars == []
    decreases |calls|
  {
    if calls != [] {
      NothingFoundIff(calls[..|calls| - 1]);
    }
  }
}
