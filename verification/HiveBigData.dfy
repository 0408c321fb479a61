/** Big data: a value of more than 16344 bytes as a list of segments, and putting it together again. */
module HiveBigData {
  import opened Wrappers
  import opened Bytes
  import opened HiveReading
  import opened HiveIterators

  /** The next segment: the first `size` bytes of the cell its list item leads to. */
  function SegmentAt(data: seq<byte>, offset: u32, size: nat): Read<seq<byte>> {
    match CellRange(data, offset)
    case Err(e) => Err(e)
    case Ok(cell) =>
      match ByteSubrange(cell, size)
      case None => Err(InvalidDataSize)
      case Some(r) => Ok(data[r.start..r.end])
  }

  /** All slices, for `left` bytes of data: full segments and, at the end, what is left. */
  ghost function Slices(data: seq<byte>, segments: Range, left: nat): seq<Read<seq<byte>>>
    requires segments.In(data)
    decreases segments.end - segments.start
  {
    if left == 0 || segments.start + 4 > segments.end then []
    else
      var size := Min(left, SEGMENT_SIZE);
      [SegmentAt(data, Get32(data, segments.start), size)]
        + Slices(data, Range(segments.start + 4, segments.end), left - size)
  }

  /** The segment list is long enough for `left` bytes. */
  predicate Enough(segments: Range, left: nat) {
    segments.start <= segments.end && left <= (segments.end - segments.start) / 4 * SEGMENT_SIZE
  }

  class BigDataSlices {
    const data: seq<byte>
    var segments: Range
    var bytesLeft: nat

    ghost predicate Valid()
      reads this
    {
      segments.In(data)
    }

    ghost function Rest(): seq<Read<seq<byte>>>
      requires Valid()
      reads this
    {
      Slices(data, segments, bytesLeft)
    }

    constructor (data: seq<byte>, segments: Range, bytesLeft: nat)
      requires segments.In(data)
      ensures Valid() && Rest() == Slices(data, segments, bytesLeft)
    {
      this.data := data;
      this.segments := segments;
      this.bytesLeft := bytesLeft;
    }

    method Next() returns (r: Option<Read<seq<byte>>>)
      requires Valid()
      modifies this
      ensures Valid() && Yields(old(Rest()), r, Rest())
    {
      var bytesToReturn := Min(bytesLeft, SEGMENT_SIZE);
      if bytesToReturn == 0 {
        return None;
      }
      match ByteSubrange(segments, 4)
      case None =>
        return None;
      case Some(item) =>
        segments := Range(segments.start + 4, segments.end);
        bytesLeft := bytesLeft - bytesToReturn;
        return Some(SegmentAt(data, Get32(data, item.start), bytesToReturn));
    }
  }

  /** The slices joined in order, or the first error among them. */
  ghost function Joined(slices: seq<Read<seq<byte>>>): Read<seq<byte>> {
    if slices == [] then Ok([])
    else match slices[0]
      case Err(e) => Err(e)
      case Ok(s) =>
        match Joined(slices[1..])
        case Err(e) => Err(e)
        case Ok(rest) => Ok(s + rest)
  }

  /** `into_vec`: small data as it is, big data slice after slice. */
  method IntoVec(h: seq<byte>, value: ValueData) returns (r: Read<seq<byte>>)
    requires value.Big? ==> value.segments.In(h)
    ensures value.Small? ==> r == Ok(value.bytes)
    ensures value.Big? ==> r == Joined(Slices(h, value.segments, value.bytesLeft))
  {
    hide Slices, Prepend, Joined;
    match value
    case Small(bytes) =>
      return Ok(bytes);
    case Big(segments, bytesLeft) =>
      var it := new BigDataSlices(h, segments, bytesLeft);
      ghost var all := it.Rest();
      JoinedStart(all);
      var bytes: seq<byte> := [];
      while true
        invariant it.Valid() && fresh(it)
        invariant Joined(all) == Prepend(bytes, Joined(it.Rest()))
        decreases |it.Rest()|
      {
        ghost var rest := it.Rest();
        JoinedStep(bytes, rest);
        var slice := it.Next();
        match slice
        case None =>
          return Ok(bytes);
        case Some(Err(e)) =>
          return Err(e);
        case Some(Ok(s)) =>
          bytes := bytes + s;
      }
  }

  function Prepend(bytes: seq<byte>, r: Read<seq<byte>>): Read<seq<byte>> {
    if r.Err? then r else Ok(bytes + r.value)
  }

  lemma JoinedStart(slices: seq<Read<seq<byte>>>)
    ensures Prepend([], Joined(slices)) == Joined(slices)
  {
    if Joined(slices).Ok? {
      assert [] + Joined(slices).value == Joined(slices).value;
    }
  }

  lemma JoinedStep(bytes: seq<byte>, rest: seq<Read<seq<byte>>>)
    ensures Prepend(bytes, Joined(rest)) ==
      if rest == [] then Ok(bytes)
      else if rest[0].Err? then Err(rest[0].error)
      else Prepend(bytes + rest[0].value, Joined(rest[1..]))
  {
    if rest == [] {
      assert bytes + [] == bytes;
    } else if rest[0].Ok? && Joined(rest[1..]).Ok? {
      var s, t := rest[0].value, Joined(rest[1..]).value;
      assert bytes + (s + t) == (bytes + s) + t;
    }
  }

  /** A big data record that is accepted lists enough segments for its data. */
  lemma AcceptedIsEnough(data: seq<byte>, size: nat, cell: Range)
    requires cell.In(data) && BigDataAt(data, size, cell).Ok?
    ensures Enough(BigDataAt(data, size, cell).value.segments, size)
    ensures BigDataAt(data, size, cell).value.bytesLeft == size
  {
    hide Get16, Get32, CellRange;
  }

  /**
   The list never runs out before the data does: exactly ceil(left / 16344) slices are produced, and every
   slice but the last that is no error has 16344 bytes.
   */
  lemma {:induction false} SliceSizes(data: seq<byte>, segments: Range, left: nat, i: nat)
    requires segments.In(data) && Enough(segments, left)
    ensures |Slices(data, segments, left)| == (left + SEGMENT_SIZE - 1) / SEGMENT_SIZE
    ensures i < |Slices(data, segments, left)| && Slices(data, segments, left)[i].Ok? ==>
      |Slices(data, segments, left)[i].value| == Min(left - i * SEGMENT_SIZE, SEGMENT_SIZE)
    decreases segments.end - segments.start
  {
    hide Get32, CellRange;
    if left == 0 {
    } else {
      var size, rest := Min(left, SEGMENT_SIZE), Range(segments.start + 4, segments.end);
      EnoughRest(segments, left);
      SliceSizes(data, rest, left - size, if i == 0 then 0 else i - 1);
      CeilStep(left);
    }
  }

  lemma EnoughRest(segments: Range, left: nat)
    requires Enough(segments, left) && left > 0
    ensures segments.start + 4 <= segments.end
    ensures Enough(Range(segments.start + 4, segments.end), left - Min(left, SEGMENT_SIZE))
  {
    var n := (segments.end - segments.start) / 4;
    assert (segments.end - (segments.start + 4)) / 4 == n - 1;
    assert n * SEGMENT_SIZE == (n - 1) * SEGMENT_SIZE + SEGMENT_SIZE;
  }

  lemma CeilStep(left: nat)
    requires left > 0
    ensures (left + SEGMENT_SIZE - 1) / SEGMENT_SIZE
      == 1 + (left - Min(left, SEGMENT_SIZE) + SEGMENT_SIZE - 1) / SEGMENT_SIZE
  {
    if left > SEGMENT_SIZE {
      assert left + SEGMENT_SIZE - 1 == (left - SEGMENT_SIZE + SEGMENT_SIZE - 1) + SEGMENT_SIZE;
    }
  }

  /** If no segment fails, joining yields exactly the announced number of bytes. */
  lemma {:induction false} JoinedLength(data: seq<byte>, segments: Range, left: nat)
    requires segments.In(data) && Enough(segments, left)
    requires Joined(Slices(data, segments, left)).Ok?
    ensures |Joined(Slices(data, segments, left)).value| == left
    decreases segments.end - segments.start
  {
    hide Get32, CellRange;
    if left == 0 {
    } else {
      EnoughRest(segments, left);
      var rest := Range(segments.start + 4, segments.end);
      assert Slices(data, segments, left)[1..] == Slices(data, rest, left - Min(left, SEGMENT_SIZE));
      JoinedLength(data, rest, left - Min(left, SEGMENT_SIZE));
    }
  }

  /** The cells that a segment list leads to hold the data, 16344 bytes in each but the last. */
  ghost predicate Segmented(h: seq<byte>, segments: Range, bytes: seq<byte>)
    requires segments.In(h)
    decreases |bytes|
  {
    bytes != [] ==>
      && segments.start + 4 <= segments.end
      && var n := if |bytes| < 16344 then |bytes| else 16344;
      && var cell := CellRange(h, Get32(h, segments.start));
      && cell.Ok? && cell.value.start + n <= cell.value.end
      && h[cell.value.start..cell.value.start + n] == bytes[..n]
      && Segmented(h, Range(segments.start + 4, segments.end), bytes[n..])
  }

  /** Data that was cut into segments is put together again. */
  lemma {:induction false} SegmentsJoin(h: seq<byte>, segments: Range, bytes: seq<byte>)
    requires segments.In(h) && Segmented(h, segments, bytes)
    ensures Joined(Slices(h, segments, |bytes|)) == Ok(bytes)
    decreases |bytes|
  {
    hide Get32, CellRange;
    if bytes == [] {
    } else {
      var n := if |bytes| < 16344 then |bytes| else 16344;
      var rest := Range(segments.start + 4, segments.end);
      SegmentsJoin(h, rest, bytes[n..]);
      var slices := Slices(h, segments, |bytes|);
      assert slices[0] == Ok(bytes[..n]);
      assert slices[1..] == Slices(h, rest, |bytes| - n);
      assert bytes[..n] + bytes[n..] == bytes;
    }
  }
}
