/**
 The parser on whatever bytes: which error it answers, how it reads the flag bits of names and the three ways of
 storing data, and which items an index root has.
 */
module HiveParsing {
  import opened Wrappers
  import opened Bytes
  import opened HiveReading
  import opened HiveRoundTrip

  // ------------------------------------------------------------------ errors

  /** What is wrong with a cell, by the word at its offset: no cell in use has a word below 2^31. */
  lemma CellErrors(data: seq<byte>, offset: u32)
    requires offset != 0xFFFF_FFFF
    ensures CellRange(data, offset) == Err(InvalidHeaderSize) <==> offset + 4 > |data|
    ensures offset + 4 <= |data| ==>
      var word, r := Get32(data, offset), CellRange(data, offset);
      && (r == Err(UnallocatedCell) <==> 0 < word < 0x8000_0000)
      && (r == Err(InvalidSizeFieldAlignment) <==> word >= 0x8000_0000 && word % 8 != 0)
      && (r == Err(InvalidSizeField) <==>
           word >= 0x8000_0000 && word % 8 == 0 && offset + 0x1_0000_0000 - word > |data|)
      && (r == Err(Panicked) <==> word == 0)
  {
    hide Get32;
    if offset + 4 <= |data| {
      assert GetI32(data, offset) as int
          == if Get32(data, offset) >= 0x8000_0000 then Get32(data, offset) - 0x1_0000_0000 else Get32(data, offset);
    }
  }

  lemma KeyNodeErrors(data: seq<byte>, offset: u32, e: HiveError)
    ensures KeyNodeAt(data, offset) == Err(e) <==>
      CellRange(data, offset) == Err(e)
      || (CellRange(data, offset).Ok?
          && var cell := CellRange(data, offset).value;
          if cell.start + 76 > cell.end then e == InvalidHeaderSize
          else e == InvalidTwoByteSignature && !Starts(data, cell, 0x6E, 0x6B))
  {
    hide CellRange;
    if CellRange(data, offset).Ok? && CellRange(data, offset).value.start + 2 <= CellRange(data, offset).value.end {
      StartsIff(data, CellRange(data, offset).value, 0x6E, 0x6B);
    }
  }

  lemma KeyValueErrors(data: seq<byte>, offset: u32, e: HiveError)
    ensures KeyValueAt(data, offset) == Err(e) <==>
      CellRange(data, offset) == Err(e)
      || (CellRange(data, offset).Ok?
          && var cell := CellRange(data, offset).value;
          if cell.start + 20 > cell.end then e == InvalidHeaderSize
          else e == InvalidTwoByteSignature && !Starts(data, cell, 0x76, 0x6B))
  {
    hide CellRange;
    if CellRange(data, offset).Ok? && CellRange(data, offset).value.start + 2 <= CellRange(data, offset).value.end {
      StartsIff(data, CellRange(data, offset).value, 0x76, 0x6B);
    }
  }

  /** The cell begins with the letters of a list there is. */
  predicate IsList(data: seq<byte>, cell: Range)
    requires cell.In(data)
  {
    Starts(data, cell, 0x6C, 0x69) || Starts(data, cell, 0x6C, 0x66) || Starts(data, cell, 0x6C, 0x68)
    || Starts(data, cell, 0x72, 0x69)
  }

  lemma ListErrors(data: seq<byte>, cell: Range, e: HiveError)
    requires cell.In(data)
    ensures SubkeyListFromRange(data, cell) == Err(e) <==>
      if cell.start + 4 > cell.end then e == InvalidHeaderSize
      else if !IsList(data, cell) then e == InvalidTwoByteSignature
      else
        var size := if data[cell.start + 1] == 0x69 then 4 else 8;
        cell.start + 4 + Get16(data, cell.start + 2) * size > cell.end && e == InvalidSizeField
  {
    hide Get16;
    if cell.start + 4 <= cell.end {
      StartsIff(data, cell, 0x6C, 0x69);
      StartsIff(data, cell, 0x6C, 0x66);
      StartsIff(data, cell, 0x6C, 0x68);
      StartsIff(data, cell, 0x72, 0x69);
    }
  }

  /** The checks of a base block in the order in which they are made. */
  ghost predicate Passes(bytes: seq<byte>, check: nat) {
    if check == 0 then |bytes| >= 4096
    else
      |bytes| >= 4096 &&
      match check
      case 1 => bytes[0] == 0x72 && bytes[1] == 0x65 && bytes[2] == 0x67 && bytes[3] == 0x66
      case 2 => Get32(bytes, 4) == Get32(bytes, 8)
      case 3 => Get32(bytes, 20) == 1 && Get32(bytes, 24) >= 3
      case 4 => Get32(bytes, 28) == 0
      case 5 => Get32(bytes, 32) == 1
      case 6 => Get32(bytes, 40) % 4096 == 0
      case 7 => 4096 + Get32(bytes, 40) <= |bytes|
      case 8 => Get32(bytes, 44) == 1
      case _ => Get32(bytes, 508) == Checksum(bytes)
  }

  const CHECKS: seq<HiveError> :=
    [InvalidHeaderSize, InvalidFourByteSignature, SequenceNumberMismatch, UnsupportedVersion, UnsupportedFileType,
     UnsupportedFileFormat, InvalidSizeFieldAlignment, InvalidSizeField, UnsupportedClusteringFactor, InvalidChecksum]

  /** The answer is the error of the first check that does not pass. */
  lemma FirstFailure(bytes: seq<byte>, check: nat)
    requires check < 10 && !Passes(bytes, check)
    requires forall i: nat {:trigger Passes(bytes, i)} :: i < check ==> Passes(bytes, i)
    ensures HiveNew(bytes) == Err(CHECKS[check])
  {
    hide Checksum, Get32;
    if |bytes| >= 4096 {
      var magic := bytes[0..4];
      assert magic == [0x72, 0x65, 0x67, 0x66] <==>
        magic[0] == 0x72 && magic[1] == 0x65 && magic[2] == 0x67 && magic[3] == 0x66;
    }
    assert check > 0 ==> Passes(bytes, 0);
    assert check > 1 ==> Passes(bytes, 1);
    assert check > 2 ==> Passes(bytes, 2);
    assert check > 3 ==> Passes(bytes, 3);
    assert check > 4 ==> Passes(bytes, 4);
    assert check > 5 ==> Passes(bytes, 5);
    assert check > 6 ==> Passes(bytes, 6);
    assert check > 7 ==> Passes(bytes, 7);
    assert check > 8 ==> Passes(bytes, 8);
  }

  // ------------------------------------------------------------------ names

  predicate Digits(v: nat, mask: nat, high: nat, low: nat) {
    low < mask && v == 2 * mask * high + mask + low
  }

  /** The bit that is worth `mask` is set. */
  ghost predicate HasBit(v: nat, mask: nat) {
    exists high: nat, low: nat :: Digits(v, mask, high, low)
  }

  /** The name of a key stands behind its record, in one byte or two for each character by bit 5 of its flags. */
  lemma KeyNameIff(data: seq<byte>, node: KeyNode, name: HiveString)
    requires node.In(data)
    ensures KeyName(data, node) == Ok(name) <==>
      var length := Get16(data, node.header.start + 72);
      && node.body.start + length <= node.body.end
      && name.bytes == data[node.body.start..node.body.start + length]
      && (name.Latin1? <==> HasBit(Get16(data, node.header.start + 2), 0x20))
  {
    hide Get16;
    var flags := Get16(data, node.header.start + 2);
    if flags / 0x20 % 2 == 1 {
      assert Digits(flags, 0x20, flags / 0x40, flags % 0x20);
    }
    if HasBit(flags, 0x20) {
      var high: nat, low: nat :| Digits(flags, 0x20, high, low);
    }
  }

  /** The same for the name of a value, by bit 0; the empty name is the default one whatever the bit. */
  lemma ValueNameIff(data: seq<byte>, value: KeyValue, name: HiveString)
    requires value.In(data)
    ensures ValueName(data, value) == Ok(name) <==>
      var length := Get16(data, value.header.start + 2);
      if length == 0 then name == Latin1([])
      else
        && value.body.start + length <= value.body.end
        && name.bytes == data[value.body.start..value.body.start + length]
        && (name.Latin1? <==> HasBit(Get16(data, value.header.start + 16), 0x1))
  {
    hide Get16;
    var flags := Get16(data, value.header.start + 16);
    if flags % 2 == 1 {
      assert Digits(flags, 0x1, flags / 2, 0);
    }
    if HasBit(flags, 0x1) {
      var high: nat, low: nat :| Digits(flags, 0x1, high, low);
    }
  }

  // ------------------------------------------------------------------ data

  /** The three ways of storing data: in the record, in a cell, or as big data. */
  lemma DataIff(data: seq<byte>, value: KeyValue, found: ValueData)
    requires value.In(data)
    ensures Data(data, value) == Ok(found) <==>
      var h, raw := value.header.start, Get32(data, value.header.start + 4);
      if raw >= 0x8000_0000 then raw <= 0x8000_0004 && found == Small(data[h + 8..h + 8 + (raw - 0x8000_0000)])
      else
        CellRange(data, Get32(data, h + 8)).Ok?
        && var cell := CellRange(data, Get32(data, h + 8)).value;
        if raw <= 16344 then cell.start + raw <= cell.end && found == Small(data[cell.start..cell.start + raw])
        else BigDataAt(data, raw, cell) == Ok(found)
  {
    hide Get32, CellRange, BigDataAt;
  }

  lemma DataErrors(data: seq<byte>, value: KeyValue, e: HiveError)
    requires value.In(data)
    ensures Data(data, value) == Err(e) <==>
      var h, raw := value.header.start, Get32(data, value.header.start + 4);
      if raw >= 0x8000_0000 then raw > 0x8000_0004 && e == InvalidSizeField
      else
        CellRange(data, Get32(data, h + 8)) == Err(e)
        || (CellRange(data, Get32(data, h + 8)).Ok?
            && var cell := CellRange(data, Get32(data, h + 8)).value;
            if raw <= 16344 then cell.start + raw > cell.end && e == InvalidDataSize
            else BigDataAt(data, raw, cell) == Err(e))
  {
    hide Get32, CellRange, BigDataAt;
  }

  lemma BigDataErrors(data: seq<byte>, size: nat, cell: Range, e: HiveError)
    requires cell.In(data)
    ensures BigDataAt(data, size, cell) == Err(e) <==>
      if cell.start + 8 > cell.end then e == InvalidHeaderSize
      else if !Starts(data, cell, 0x64, 0x62) then e == InvalidTwoByteSignature
      else if size > Get16(data, cell.start + 2) * 16344 then e == InvalidSizeField
      else
        CellRange(data, Get32(data, cell.start + 4)) == Err(e)
        || (CellRange(data, Get32(data, cell.start + 4)).Ok? && e == InvalidSizeField
            && var list := CellRange(data, Get32(data, cell.start + 4)).value;
            list.start + Get16(data, cell.start + 2) * 4 > list.end)
  {
    hide CellRange, Get16, Get32;
    if cell.start + 8 <= cell.end {
      StartsIff(data, cell, 0x64, 0x62);
    }
  }

  // ------------------------------------------------------------------ index roots

  /** The words of a list, whatever is left over at its end. */
  ghost predicate WordsAre(data: seq<byte>, items: Range, words: seq<u32>)
    requires items.In(data)
  {
    && items.start + 4 * |words| <= items.end < items.start + 4 * |words| + 4
    && forall i {:trigger words[i]} :: 0 <= i < |words| ==> words[i] == Get32(data, items.start + 4 * i)
  }

  /** What one word of an index root stands for: the items of its leaf, of four or eight bytes, or one error. */
  ghost function LeafOf(data: seq<byte>, word: u32): seq<Read<KeyNode>> {
    match LeafAt(data, word)
    case Err(e) => [Err(e)]
    case Ok(leaf) => LeafItems(data, leaf.items, if leaf.listType.IndexLeaf? then 4 else 8)
  }

  ghost function LeavesOf(data: seq<byte>, words: seq<u32>): seq<Read<KeyNode>> {
    if words == [] then [] else LeavesOf(data, words[..|words| - 1]) + LeafOf(data, words[|words| - 1])
  }

  lemma {:induction false} LeavesOfJoin(data: seq<byte>, word: u32, words: seq<u32>)
    ensures LeavesOf(data, [word] + words) == LeafOf(data, word) + LeavesOf(data, words)
    decreases |words|
  {
    hide LeafOf;
    var all := [word] + words;
    if words == [] {
      assert all[..0] == [] && all == [word];
      assert LeavesOf(data, all) == LeavesOf(data, all[..0]) + LeafOf(data, all[0]);
    } else {
      var n := |words| - 1;
      LeavesOfJoin(data, word, words[..n]);
      assert all[..|all| - 1] == [word] + words[..n] && all[|all| - 1] == words[n];
    }
  }

  /** The items of an index root are those of all its leaves, one leaf after the other. */
  lemma {:induction false} IndexRootIs(data: seq<byte>, items: Range, words: seq<u32>)
    requires items.In(data) && WordsAre(data, items, words)
    ensures IndexRootItems(data, items) == LeavesOf(data, words)
    decreases |words|
  {
    hide LeafAt, LeafItems, Get32;
    if words == [] {
    } else {
      var rest := Range(items.start + 4, items.end);
      assert WordsAre(data, rest, words[1..]) by {
        forall i | 0 <= i < |words[1..]| ensures words[1..][i] == Get32(data, rest.start + 4 * i) {
          assert words[1..][i] == words[i + 1];
        }
      }
      IndexRootIs(data, rest, words[1..]);
      LeavesOfJoin(data, words[0], words[1..]);
      assert words == [words[0]] + words[1..] && words[0] == Get32(data, items.start + 4 * 0);
    }
  }

  /** Every word there is has its leaf in the items, behind those of the words before it. */
  lemma {:induction false} LeavesPlaced(data: seq<byte>, words: seq<u32>, k: nat)
    requires k < |words|
    ensures var before := |LeavesOf(data, words[..k])|;
            && before + |LeafOf(data, words[k])| <= |LeavesOf(data, words)|
            && LeavesOf(data, words)[before..before + |LeafOf(data, words[k])|] == LeafOf(data, words[k])
    decreases |words|
  {
    hide LeafOf;
    var n := |words| - 1;
    if k < n {
      LeavesPlaced(data, words[..n], k);
      assert words[..n][..k] == words[..k] && words[..n][k] == words[k];
    }
  }
}
