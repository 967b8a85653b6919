/** read_stream (final.py:180-211): reading a domain name out of a response
    buffer. A 0 byte ends the name, the byte 192 is a compression pointer
    whose target offset is the single next byte (a narrowed form of section
    4.1.4 of RFC 1035), and every other byte is the length of a label that
    follows. Followed pointer targets are cached per message. */
module Names {
  import opened DnsBase

  /** The parser state read_stream uses and changes: the name cache
      `self.names` and the cursor `self.position`. */
  datatype Cursor = Cursor(names: map<nat, Bytes>, position: nat)

  /** What a call of read_stream yields: the name or the exception, and the
      parser state it leaves behind (also when it raises). */
  datatype NameRead = NameRead(result: Result<Bytes>, cursor: Cursor)

  /** The byte that marks a compression pointer. */
  const Pointer: Byte := 192

  /** How deep pointer following may nest before the interpreter gives up
      with RecursionError (Python's default recursion limit). */
  const RecursionLimit: nat := 1000

  /** `read_stream(pos, recur, length)`. `recur` is the truthiness of the
      second argument; `depth` is how many more nested calls the interpreter
      allows. read_stream raises only IndexError, for a read past the end
      of the response, and RecursionError, for pointers nested too deep. */
  function ReadName(buf: Bytes, c: Cursor, pos: nat, recur: bool, length: int, depth: nat): (r: NameRead)
    ensures pos >= |buf| ==> r == NameRead(Err(IndexError), c)
    ensures r.result.Err? ==> r.result.error == IndexError || r.result.error == RecursionError
  {
    ReadLoop(buf, c, pos, recur, length, 0, [], depth)
  }

  /** The `while True` loop of read_stream from offset `pos`, with the
      labels read so far in `chunks` and `count` bytes consumed. The bounds
      check at entry and the read of `response[pos]` raise the same
      IndexError, so the loop alone describes the call. */
  function ReadLoop(buf: Bytes, c: Cursor, pos: nat, recur: bool, length: int, count: int,
                    chunks: seq<Bytes>, depth: nat): (r: NameRead)
    ensures r.result.Err? ==> r.result.error == IndexError || r.result.error == RecursionError
    decreases depth, |buf| - pos, 1
  {
    if pos >= |buf| then NameRead(Err(IndexError), c)
    else LoopTurn(buf, c, pos, recur, length, count, chunks, depth)
  }

  /** One turn of the loop at the byte `buf[pos]`: the end of the name, a
      pointer, or a label length. */
  function LoopTurn(buf: Bytes, c: Cursor, pos: nat, recur: bool, length: int, count: int,
                    chunks: seq<Bytes>, depth: nat): (r: NameRead)
    requires pos < |buf|
    ensures r.result.Err? ==> r.result.error == IndexError || r.result.error == RecursionError
    decreases depth, |buf| - pos, 0
  {
    if buf[pos] == 0 then
      NameRead(Ok(Join(chunks)), if recur then c else c.(position := pos))
    else if buf[pos] == Pointer then
      if pos + 1 >= |buf| then NameRead(Err(IndexError), c)
      else
        var follow := Follow(buf, c.(position := pos + 1), buf[pos + 1], depth);
        if follow.result.Err? then follow
        else
          var chunks', count' := chunks + [follow.result.value], count + 2;
          if length == 0 || count' == length then NameRead(Ok(Join(chunks')), follow.cursor)
          else ReadLoop(buf, follow.cursor, pos + 2, recur, length, count', chunks', depth)
    else
      var hint := buf[pos];
      ReadLoop(buf, c, pos + 1 + hint, recur, length, count + 1 + hint,
               chunks + [Slice(buf, pos + 1, pos + 1 + hint)], depth)
  }

  /** The name a pointer to `index` stands for: the cached one, or else the
      name read there by a recursive call, which is then cached. */
  function Follow(buf: Bytes, c: Cursor, index: nat, depth: nat): (r: NameRead)
    ensures index in c.names ==> r == NameRead(Ok(c.names[index]), c)
    ensures index !in c.names && depth == 0 ==> r == NameRead(Err(RecursionError), c)
    ensures index !in c.names && r.result.Ok? ==> index in r.cursor.names && r.cursor.names[index] == r.result.value
    ensures r.result.Err? ==> r.result.error == IndexError || r.result.error == RecursionError
    decreases depth, 0, 0
  {
    if index in c.names then NameRead(Ok(c.names[index]), c)
    else if depth == 0 then NameRead(Err(RecursionError), c)
    else
      var inner := ReadLoop(buf, c, index, true, 0, 0, [], depth - 1);
      if inner.result.Err? then inner
      else NameRead(inner.result, inner.cursor.(names := inner.cursor.names[index := inner.result.value]))
  }

  /** The loop at an offset inside the buffer is one turn there. */
  lemma LoopUnfold(buf: Bytes, c: Cursor, pos: nat, recur: bool, length: int, count: int,
                   chunks: seq<Bytes>, depth: nat)
    requires pos < |buf|
    ensures ReadLoop(buf, c, pos, recur, length, count, chunks, depth)
            == LoopTurn(buf, c, pos, recur, length, count, chunks, depth)
  {
  }

  /** A label length byte: anything but the terminator and the pointer mark. */
  predicate IsLabelLength(n: int)
  {
    0 < n < 256 && n != Pointer as int
  }

  /** Labels that can stand on the wire behind their length byte. */
  predicate WireReady(labels: seq<Bytes>)
  {
    labels == [] || (IsLabelLength(|labels[0]|) && WireReady(labels[1..]))
  }

  /** Labels in wire form: each one preceded by its length. */
  function LabelRun(labels: seq<Bytes>): (r: Bytes)
    requires WireReady(labels)
    ensures |r| == |labels| + SumLengths(labels)
  {
    if labels == [] then [] else [|labels[0]| as Byte] + labels[0] + LabelRun(labels[1..])
  }

  /** A label length byte moves the loop past the label and adds the label
      to the name. */
  lemma LabelStep(buf: Bytes, c: Cursor, pos: nat, recur: bool, length: int, count: int,
                  chunks: seq<Bytes>, depth: nat, l: Bytes)
    requires pos < |buf| && IsLabelLength(|l|) && buf[pos] == |l|
    requires Slice(buf, pos + 1, pos + 1 + |l|) == l
    ensures ReadLoop(buf, c, pos, recur, length, count, chunks, depth)
            == ReadLoop(buf, c, pos + 1 + |l|, recur, length, count + 1 + |l|, chunks + [l], depth)
  {
    LoopUnfold(buf, c, pos, recur, length, count, chunks, depth);
  }

  /** Any other length byte moves the loop past that many bytes and adds
      what of them the buffer holds as a label. */
  lemma LabelSkip(buf: Bytes, c: Cursor, pos: nat, recur: bool, length: int, count: int,
                  chunks: seq<Bytes>, depth: nat)
    requires pos < |buf| && buf[pos] != 0 && buf[pos] != Pointer
    ensures ReadLoop(buf, c, pos, recur, length, count, chunks, depth)
            == ReadLoop(buf, c, pos + 1 + buf[pos], recur, length, count + 1 + buf[pos],
                        chunks + [Slice(buf, pos + 1, pos + 1 + buf[pos])], depth)
  {
    LoopUnfold(buf, c, pos, recur, length, count, chunks, depth);
  }

  /** A pointer whose target name `f` was found adds that name, then ends
      the name when `length` says so and goes on two bytes later otherwise. */
  lemma PointerFollowed(buf: Bytes, c: Cursor, pos: nat, recur: bool, length: int, count: int,
                        chunks: seq<Bytes>, depth: nat, f: NameRead)
    requires pos + 1 < |buf| && buf[pos] == Pointer
    requires f == Follow(buf, c.(position := pos + 1), buf[pos + 1], depth) && f.result.Ok?
    ensures ReadLoop(buf, c, pos, recur, length, count, chunks, depth)
            == if length == 0 || count + 2 == length then NameRead(Ok(Join(chunks + [f.result.value])), f.cursor)
               else ReadLoop(buf, f.cursor, pos + 2, recur, length, count + 2, chunks + [f.result.value], depth)
  {
    LoopUnfold(buf, c, pos, recur, length, count, chunks, depth);
  }

  /** A 0 byte ends the name with the labels read so far. */
  lemma NameEnds(buf: Bytes, c: Cursor, pos: nat, recur: bool, length: int, count: int,
                 chunks: seq<Bytes>, depth: nat)
    requires pos < |buf| && buf[pos] == 0
    ensures ReadLoop(buf, c, pos, recur, length, count, chunks, depth)
            == NameRead(Ok(Join(chunks)), if recur then c else c.(position := pos))
  {
    LoopUnfold(buf, c, pos, recur, length, count, chunks, depth);
  }

  /** `labels` stand in `buf` from `pos` on, each behind its length byte,
      and a 0 byte follows them. */
  predicate RunAt(buf: Bytes, pos: nat, labels: seq<Bytes>)
    decreases labels
  {
    if labels == [] then pos < |buf| && buf[pos] == 0
    else
      var l := labels[0];
      IsLabelLength(|l|) && pos + 1 + |l| <= |buf| && buf[pos] == |l|
      && Slice(buf, pos + 1, pos + 1 + |l|) == l && RunAt(buf, pos + 1 + |l|, labels[1..])
  }

  /** A 0 byte ends the name; labels in front of it are joined with '.'.
      The cursor moves to the terminator unless the call is a recursive one,
      and the cache is left alone. */
  lemma {:induction false} ReadLabels(buf: Bytes, pos: nat, labels: seq<Bytes>, c: Cursor, recur: bool,
                                      length: int, count: int, chunks: seq<Bytes>, depth: nat)
    requires RunAt(buf, pos, labels)
    ensures var end := pos + |labels| + SumLengths(labels);
            ReadLoop(buf, c, pos, recur, length, count, chunks, depth)
            == NameRead(Ok(Join(chunks + labels)), if recur then c else c.(position := end))
    decreases labels, 1
  {
    if labels == [] {
      assert chunks + labels == chunks;
      NameEnds(buf, c, pos, recur, length, count, chunks, depth);
    } else {
      ReadFirstLabel(buf, pos, labels, c, recur, length, count, chunks, depth);
    }
  }

  /** ReadLabels for a non-empty run: the first label, then the rest. */
  lemma {:induction false} ReadFirstLabel(buf: Bytes, pos: nat, labels: seq<Bytes>, c: Cursor, recur: bool,
                                          length: int, count: int, chunks: seq<Bytes>, depth: nat)
    requires labels != [] && RunAt(buf, pos, labels)
    ensures var end := pos + |labels| + SumLengths(labels);
            ReadLoop(buf, c, pos, recur, length, count, chunks, depth)
            == NameRead(Ok(Join(chunks + labels)), if recur then c else c.(position := end))
    decreases labels, 0
  {
    var l, rest := labels[0], labels[1..];
    var next := pos + 1 + |l|;
    var end := pos + |labels| + SumLengths(labels);
    var r := NameRead(Ok(Join(chunks + labels)), if recur then c else c.(position := end));
    ReadLabels(buf, next, rest, c, recur, length, count + 1 + |l|, chunks + [l], depth);
    assert chunks + [l] + rest == chunks + labels;
    assert next + |rest| + SumLengths(rest) == end;
    assert ReadLoop(buf, c, next, recur, length, count + 1 + |l|, chunks + [l], depth) == r;
    LabelStep(buf, c, pos, recur, length, count, chunks, depth, l);
  }

  /** The wire form of the labels followed by a 0 byte is a run of those
      labels, wherever it stands. */
  lemma {:induction false} RunOfWire(buf: Bytes, pos: nat, labels: seq<Bytes>)
    requires WireReady(labels)
    requires pos + |LabelRun(labels)| < |buf| && buf[pos..pos + |LabelRun(labels)|] == LabelRun(labels)
    requires buf[pos + |LabelRun(labels)|] == 0
    ensures RunAt(buf, pos, labels)
    decreases labels
  {
    if labels != [] {
      var l, rest := labels[0], labels[1..];
      assert LabelRun(labels) == [|l| as Byte] + l + LabelRun(rest);
      SliceParts(buf, pos, |LabelRun(labels)|, |l| as Byte, l, LabelRun(rest));
      RunOfWire(buf, pos + 1 + |l|, rest);
    }
  }

  /** A window of `buf` made of a byte, a label and more splits into
      three windows. */
  lemma SliceParts(buf: Bytes, pos: nat, n: nat, b: Byte, l: Bytes, more: Bytes)
    requires pos + n <= |buf| && buf[pos..pos + n] == [b] + l + more
    ensures buf[pos] == b && buf[pos + 1..pos + 1 + |l|] == l
    ensures buf[pos + 1 + |l|..pos + n] == more
  {
    var w := buf[pos..pos + n];
    assert w[0] == b;
    assert forall i | 0 <= i < |l| :: buf[pos + 1..pos + 1 + |l|][i] == w[1 + i] == l[i];
    assert forall i | 0 <= i < |more| :: buf[pos + 1 + |l|..pos + n][i] == w[1 + |l| + i] == more[i];
  }

  /** A pointer to a cached target ends the name (when no length is given)
      with the cached name, and leaves the cursor on the pointer's offset
      byte. */
  lemma CachedPointer(buf: Bytes, c: Cursor, pos: nat, recur: bool, count: int,
                      chunks: seq<Bytes>, depth: nat)
    requires pos + 1 < |buf| && buf[pos] == Pointer && buf[pos + 1] in c.names
    ensures ReadLoop(buf, c, pos, recur, 0, count, chunks, depth)
            == NameRead(Ok(Join(chunks + [c.names[buf[pos + 1]]])), c.(position := pos + 1))
  {
    LoopUnfold(buf, c, pos, recur, 0, count, chunks, depth);
  }

  /** A pointer to a target not yet cached reads the target as a recursive
      call, stores the name read under the target offset and ends the name
      with it. The cursor is whatever the recursive call left: it is not
      restored. */
  lemma FollowedPointer(buf: Bytes, c: Cursor, pos: nat, recur: bool, count: int,
                        chunks: seq<Bytes>, depth: nat)
    requires pos + 1 < |buf| && buf[pos] == Pointer && buf[pos + 1] !in c.names && depth > 0
    requires ReadName(buf, c.(position := pos + 1), buf[pos + 1], true, 0, depth - 1).result.Ok?
    ensures var index := buf[pos + 1];
            var inner := ReadName(buf, c.(position := pos + 1), index, true, 0, depth - 1);
            var r := ReadLoop(buf, c, pos, recur, 0, count, chunks, depth);
            r.result == Ok(Join(chunks + [inner.result.value]))
            && r.cursor.names == inner.cursor.names[index := inner.result.value]
            && r.cursor.position == inner.cursor.position
  {
    LoopUnfold(buf, c, pos, recur, 0, count, chunks, depth);
  }

  /** A label whose length byte points past the buffer never yields a
      partial name: the next read of a length byte raises IndexError. */
  lemma LabelRunsOff(buf: Bytes, c: Cursor, pos: nat, recur: bool, length: int, count: int,
                     chunks: seq<Bytes>, depth: nat)
    requires pos < |buf| && IsLabelLength(buf[pos]) && pos + 1 + buf[pos] >= |buf|
    ensures ReadLoop(buf, c, pos, recur, length, count, chunks, depth).result == Err(IndexError)
  {
    LoopUnfold(buf, c, pos, recur, length, count, chunks, depth);
  }

  /** The cache only grows: every offset cached before a read is still
      cached after it. */
  lemma {:induction false} CacheGrows(buf: Bytes, c: Cursor, pos: nat, recur: bool, length: int,
                                      count: int, chunks: seq<Bytes>, depth: nat)
    ensures c.names.Keys <= ReadLoop(buf, c, pos, recur, length, count, chunks, depth).cursor.names.Keys
    decreases depth, |buf| - pos, 1
  {
    if pos < |buf| && buf[pos] != 0 {
      LoopUnfold(buf, c, pos, recur, length, count, chunks, depth);
      if buf[pos] == Pointer {
        if pos + 1 < |buf| {
          var c1 := c.(position := pos + 1);
          FollowGrows(buf, c1, buf[pos + 1], depth);
          var follow := Follow(buf, c1, buf[pos + 1], depth);
          if follow.result.Ok? && !(length == 0 || count + 2 == length) {
            CacheGrows(buf, follow.cursor, pos + 2, recur, length, count + 2,
                       chunks + [follow.result.value], depth);
          }
        }
      } else {
        var hint := buf[pos];
        CacheGrows(buf, c, pos + 1 + hint, recur, length, count + 1 + hint,
                   chunks + [Slice(buf, pos + 1, pos + 1 + hint)], depth);
      }
    }
  }

  lemma {:induction false} FollowGrows(buf: Bytes, c: Cursor, index: nat, depth: nat)
    ensures c.names.Keys <= Follow(buf, c, index, depth).cursor.names.Keys
    decreases depth, 0, 0
  {
    if index !in c.names && depth > 0 {
      CacheGrows(buf, c, index, true, 0, 0, [], depth - 1);
    }
  }

  /** Where read_stream leaves the cursor: untouched, on a name terminator,
      or on the offset byte of a pointer. */
  predicate Parked(buf: Bytes, position: nat)
  {
    position < |buf| && (buf[position] == 0 || (position >= 1 && buf[position - 1] == Pointer))
  }

  lemma {:induction false} CursorParked(buf: Bytes, c: Cursor, pos: nat, recur: bool, length: int,
                                        count: int, chunks: seq<Bytes>, depth: nat)
    ensures var r := ReadLoop(buf, c, pos, recur, length, count, chunks, depth);
            r.cursor.position == c.position || Parked(buf, r.cursor.position)
    decreases depth, |buf| - pos, 1
  {
    if pos < |buf| && buf[pos] != 0 {
      LoopUnfold(buf, c, pos, recur, length, count, chunks, depth);
      if buf[pos] == Pointer {
        if pos + 1 < |buf| {
          var c1 := c.(position := pos + 1);
          FollowParked(buf, c1, buf[pos + 1], depth);
          var follow := Follow(buf, c1, buf[pos + 1], depth);
          if follow.result.Ok? && !(length == 0 || count + 2 == length) {
            CursorParked(buf, follow.cursor, pos + 2, recur, length, count + 2,
                         chunks + [follow.result.value], depth);
          }
        }
      } else {
        var hint := buf[pos];
        CursorParked(buf, c, pos + 1 + hint, recur, length, count + 1 + hint,
                     chunks + [Slice(buf, pos + 1, pos + 1 + hint)], depth);
      }
    }
  }

  /** Following a pointer whose offset byte is at the cursor leaves the
      cursor parked. */
  lemma {:induction false} FollowParked(buf: Bytes, c: Cursor, index: nat, depth: nat)
    requires 1 <= c.position < |buf| && buf[c.position - 1] == Pointer
    ensures Parked(buf, Follow(buf, c, index, depth).cursor.position)
    decreases depth, 0, 0
  {
    if index !in c.names && depth > 0 {
      CursorParked(buf, c, index, true, 0, 0, [], depth - 1);
    }
  }
}
