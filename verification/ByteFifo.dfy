/** The chunked byte queue of inet/src/base/ByteArrayBuffer.cc and the byte arrays of inet/src/base/ByteArray.cc that it
    is made of. */
module ByteFifo {
  type byte = x: nat | x < 256

  const UINT_RANGE: nat := 0x1_0000_0000

  /** The bytes of a list of slices. */
  function Flat(slices: seq<seq<byte>>): seq<byte> {
    if slices == [] then [] else slices[0] + Flat(slices[1..])
  }

  lemma FlatFront(slices: seq<seq<byte>>)
    ensures slices == [] ==> Flat(slices) == []
    ensures slices != [] ==> Flat(slices) == slices[0] + Flat(slices[1..])
  {
  }

  lemma {:induction false} FlatAppend(a: seq<seq<byte>>, b: seq<seq<byte>>)
    ensures Flat(a + b) == Flat(a) + Flat(b)
  {
    FlatFront(a);
    FlatFront(a + b);
    hide Flat;
    if a == [] {
      assert a + b == b;
    } else {
      FlatAppend(a[1..], b);
      assert (a + b)[1..] == a[1..] + b;
    }
  }

  lemma FlatOne(s: seq<byte>)
    ensures Flat([s]) == s
  {
    assert Flat([s]) == s + Flat([]);
  }

  /** One slice further in the queue. */
  lemma Advance(all: seq<byte>, d: nat, slices: seq<seq<byte>>, i: nat)
    requires i < |slices| && d <= |all| && all[d..] == Flat(slices[i..])
    ensures var e := d + |slices[i]|;
            e <= |all| && all[d..e] == slices[i] && all[e..] == Flat(slices[i + 1..])
  {
    var e := d + |slices[i]|;
    assert slices[i..][1..] == slices[i + 1..];
    assert all[d..] == slices[i] + Flat(slices[i + 1..]);
    assert all[e..] == all[d..][|slices[i]|..];
    assert all[d..e] == all[d..][..|slices[i]|];
  }

  function Min(a: nat, b: nat): nat { if a < b then a else b }

  /** What a slice has to give from an offset on, up to a length. */
  function Chunk(slice: seq<byte>, offs: nat, length: nat): seq<byte> {
    if offs >= |slice| then [] else slice[offs..offs + Min(length, |slice| - offs)]
  }

  function Truncated(slice: seq<byte>, left: nat, right: nat): seq<byte>
    requires left + right <= |slice|
  {
    slice[left..|slice| - right]
  }

  /** b with some of its bytes replaced. */
  function Spliced(b: seq<byte>, at: nat, chunk: seq<byte>): seq<byte>
    requires at + |chunk| <= |b|
  {
    b[..at] + chunk + b[at + |chunk|..]
  }

  // ---------- copyDataToBuffer and its 32-bit arithmetic ----------

  /** The length that copyDataToBuffer copies; the sum is one of unsigned ints. */
  function Clipped(size: nat, srcOffs: nat, length: nat): nat {
    if srcOffs >= size then 0
    else if (srcOffs + length) % UINT_RANGE > size then size - srcOffs
    else length
  }

  /** It is the length of what is there if and only if the sum does not wrap around. */
  lemma ClipsExactly(size: nat, srcOffs: nat, length: nat)
    requires size < UINT_RANGE && srcOffs < size && length < UINT_RANGE
    ensures Clipped(size, srcOffs, length) == Min(length, size - srcOffs) <==> srcOffs + length < UINT_RANGE
  {
  }

  /** memcpy */
  method Write(src: seq<byte>, dst: array<byte>, at: nat)
    requires at + |src| <= dst.Length
    modifies dst
    ensures dst[..] == Spliced(old(dst[..]), at, src)
  {
    for i := 0 to |src|
      invariant forall j | 0 <= j < dst.Length :: dst[j] == if at <= j < at + i then src[j - at] else old(dst[j])
    {
      dst[at + i] := src[i];
    }
  }

  /** copyDataToBuffer of the byte array slice, to the place at in the buffer. */
  method CopyChunk(slice: seq<byte>, buffer: array<byte>, at: nat, length: nat, srcOffs: nat)
    returns (copied: nat)
    requires at + length <= buffer.Length && (srcOffs >= |slice| || srcOffs + length < UINT_RANGE)
    modifies buffer
    ensures copied == |Chunk(slice, srcOffs, length)|
    ensures buffer[..] == Spliced(old(buffer[..]), at, Chunk(slice, srcOffs, length))
  {
    if srcOffs >= |slice| {
      return 0;
    }
    copied := length;
    if (srcOffs + length) % UINT_RANGE > |slice| {
      copied := |slice| - srcOffs;
    }
    Write(slice[srcOffs..srcOffs + copied], buffer, at);
  }

  class ByteArray {
    var data: array<byte>

    constructor ()
      ensures data[..] == [] && fresh(data)
    {
      data := new byte[0];
    }

    /** setDataFromBuffer; the array is kept if it has the right size. */
    method SetDataFromBuffer(ptr: array<byte>, length: nat)
      requires length <= ptr.Length && ptr != data
      modifies this, data
      ensures data[..] == ptr[..length] && (data == old(data) || fresh(data))
    {
      if length != data.Length {
        data := new byte[length](_ => 0);
      }
      Write(ptr[..length], data, 0);
    }

    /** addDataFromBuffer */
    method AddDataFromBuffer(ptr: array<byte>, length: nat)
      requires length <= ptr.Length
      modifies this
      ensures data[..] == old(data[..]) + ptr[..length] && (data == old(data) || fresh(data))
    {
      if length == 0 {
        return;
      }
      var ndata := new byte[data.Length + length](_ => 0);
      Write(data[..], ndata, 0);
      Write(ptr[..length], ndata, data.Length);
      data := ndata;
    }

    /** copyDataToBuffer */
    method CopyDataToBuffer(buffer: array<byte>, at: nat, length: nat, srcOffs: nat) returns (copied: nat)
      requires at + length <= buffer.Length && (srcOffs >= data.Length || srcOffs + length < UINT_RANGE)
      requires buffer != data
      modifies buffer
      ensures copied == |Chunk(data[..], srcOffs, length)|
      ensures buffer[..] == Spliced(old(buffer[..]), at, Chunk(data[..], srcOffs, length))
    {
      copied := CopyChunk(data[..], buffer, at, length, srcOffs);
    }

    /** truncateData, which asserts that there is enough to cut off. */
    method TruncateData(left: nat, right: nat)
      requires left + right <= data.Length
      modifies this
      ensures data[..] == Truncated(old(data[..]), left, right) && (data == old(data) || fresh(data))
    {
      if left != 0 || right != 0 {
        var n := data.Length - (left + right);
        var ndata := new byte[n](_ => 0);
        Write(Truncated(data[..], left, right), ndata, 0);
        data := ndata;
      }
    }
  }

  // ---------- The queue over its whole life ----------

  datatype Operation = Pushed(data: seq<byte>) | Taken(length: nat)

  function After(q: seq<byte>, op: Operation): seq<byte> {
    match op
    case Pushed(data) => q + data
    case Taken(n) => if n <= |q| then q[n..] else q
  }

  /** What is in the queue after some pushes, pops and drops, if none of these took more than there was. */
  function Queue(ops: seq<Operation>): seq<byte> {
    if ops == [] then [] else After(Queue(ops[..|ops| - 1]), ops[|ops| - 1])
  }

  lemma QueueNext(ops: seq<Operation>, op: Operation)
    ensures Queue(ops + [op]) == After(Queue(ops), op)
  {
    assert (ops + [op])[..|ops|] == ops;
  }

  /** All bytes that have ever been pushed. */
  function PushedBy(ops: seq<Operation>): seq<byte> {
    if ops == [] then []
    else PushedBy(ops[..|ops| - 1]) + match ops[|ops| - 1] case Pushed(data) => data case Taken(_) => []
  }

  /** All bytes that have ever been popped or dropped. */
  function TakenBy(ops: seq<Operation>): seq<byte> {
    if ops == [] then []
    else
      var q := Queue(ops[..|ops| - 1]);
      TakenBy(ops[..|ops| - 1])
      + match ops[|ops| - 1] case Pushed(_) => [] case Taken(n) => if n <= |q| then q[..n] else []
  }

  /** What has been taken and what is left make up what was pushed. */
  lemma {:induction false} NothingIsLost(ops: seq<Operation>)
    ensures TakenBy(ops) + Queue(ops) == PushedBy(ops)
  {
    if ops != [] {
      var n := |ops| - 1;
      NothingIsLost(ops[..n]);
      var q := Queue(ops[..n]);
      match ops[n] {
        case Pushed(data) => assert TakenBy(ops) == TakenBy(ops[..n]);
        case Taken(k) =>
          if k <= |q| {
            assert q[..k] + q[k..] == q;
          }
          assert PushedBy(ops) == PushedBy(ops[..n]);
      }
    }
  }

  /** The offset within the slice that an offset of the queue falls into; 0 past the end. */
  function Inside(slices: seq<seq<byte>>, offs: nat): nat {
    if slices == [] then 0
    else if offs < |slices[0]| then offs
    else Inside(slices[1..], offs - |slices[0]|)
  }

  /** The list holds its byte arrays by value, so that they are byte strings here. history is what has been done since
      the construction or the last clear. */
  class ByteArrayBuffer {
    var dataLengthM: nat
    var dataListM: seq<seq<byte>>
    ghost var history: seq<Operation>

    /** The queue. */
    ghost function Bytes(): seq<byte>
      reads this
    {
      Flat(dataListM)
    }

    ghost predicate Valid()
      reads this
    {
      dataLengthM == |Bytes()| && Bytes() == Queue(history)
    }

    /** Whatever has been done to a queue, what was taken from it and what is in it make up what was pushed. */
    lemma Conserved()
      requires Valid()
      ensures TakenBy(history) + Bytes() == PushedBy(history)
    {
      NothingIsLost(history);
    }

    constructor ()
      ensures Valid() && Bytes() == [] && history == []
    {
      dataLengthM, dataListM, history := 0, [], [];
    }

    /** push(bufferP, bufferLengthP) */
    method Push(buffer: array<byte>, length: nat)
      requires Valid() && length <= buffer.Length
      modifies this
      ensures Valid() && Bytes() == old(Bytes()) + buffer[..length]
      ensures history == old(history) + [Pushed(buffer[..length])]
    {
      QueueNext(history, Pushed(buffer[..length]));
      FlatAppend(dataListM, [buffer[..length]]);
      FlatOne(buffer[..length]);
      dataListM := dataListM + [buffer[..length]];
      dataLengthM := dataLengthM + length;
      history := history + [Pushed(buffer[..length])];
    }

    /** getLength */
    method GetLength() returns (length: nat)
      requires Valid()
      ensures length == |Bytes()|
    {
      length := dataLengthM;
    }

    /** getBytesToBuffer; within the first slice it copies from, offset and length must not wrap around. */
    method GetBytesToBuffer(buffer: array<byte>, length: nat, srcOffs: nat) returns (copied: nat)
      requires length <= buffer.Length && Inside(dataListM, srcOffs) + length < UINT_RANGE
      modifies buffer
      ensures copied == |Chunk(Bytes(), srcOffs, length)|
      ensures buffer[..] == Spliced(old(buffer[..]), 0, Chunk(Bytes(), srcOffs, length))
    {
      hide Flat, Copying, Chunk, Inside, Spliced;
      copied := 0;
      var offs: nat := srcOffs;
      var i: nat := 0;
      ghost var d: nat := 0;
      ghost var start, out: seq<byte> := buffer[..], [];
      assert dataListM[0..] == dataListM && [] + start[0..] == start;
      CopyingStart(dataListM, srcOffs, length);
      while copied < length && i < |dataListM|
        invariant i <= |dataListM| && copied == |out| <= length
        invariant Copying(Bytes(), dataListM[i..], d, srcOffs, offs, copied, length, out)
        invariant copied == 0 ==> Inside(dataListM[i..], offs) == Inside(dataListM, srcOffs)
        invariant copied > 0 && copied < length ==> offs == 0
        invariant buffer[..] == out + start[copied..]
      {
        var slice := dataListM[i];
        assert dataListM[i..][0] == slice && dataListM[i..][1..] == dataListM[i + 1..];
        InsideStep(dataListM[i..], offs);
        var cbytes := CopyChunk(slice, buffer, copied, length - copied, offs);
        ghost var chunk := Chunk(slice, offs, length - copied);
        CopyingStep(Bytes(), dataListM[i..], d, srcOffs, offs, copied, length, out, chunk);
        SplicedNext(out, start, chunk);
        if cbytes != 0 {
          copied := copied + cbytes;
          offs := 0;
        } else {
          offs := offs - |slice|;
        }
        assert chunk == [] ==> out + chunk == out;
        out := out + chunk;
        d := d + |slice|;
        i := i + 1;
      }
      CopyingEnd(Bytes(), dataListM[i..], d, srcOffs, offs, copied, length, out);
      SplicedAll(start, out);
    }

    /** popBytesToBuffer */
    method PopBytesToBuffer(buffer: array<byte>, length: nat) returns (popped: nat)
      requires Valid() && length <= buffer.Length && length < UINT_RANGE
      modifies this, buffer
      ensures Valid() && popped == Min(length, |old(Bytes())|)
      ensures buffer[..] == Spliced(old(buffer[..]), 0, old(Bytes())[..popped])
      ensures Bytes() == old(Bytes())[popped..] && history == old(history) + [Taken(popped)]
    {
      InsideStart(dataListM);
      var n := GetBytesToBuffer(buffer, length, 0);
      popped := Drop(n);
    }

    /** drop, which asserts that there is enough to drop. */
    method Drop(lengthP: nat) returns (dropped: nat)
      requires Valid() && lengthP <= dataLengthM
      modifies this
      ensures Valid() && dropped == lengthP && Bytes() == old(Bytes())[lengthP..]
      ensures history == old(history) + [Taken(lengthP)]
    {
      hide Flat;
      QueueNext(history, Taken(lengthP));
      hide Queue;
      var length: nat := lengthP;
      ghost var goal := Bytes()[lengthP..];
      while length > 0
        invariant dataLengthM == |Bytes()| && length <= |Bytes()| && history == old(history)
        invariant Bytes()[length..] == goal
        decreases |dataListM| + length
      {
        FlatFront(dataListM);
        ghost var rest := dataListM[1..];
        var sliceLength := |dataListM[0]|;
        if sliceLength <= length {
          dataListM := dataListM[1..];
          dataLengthM := dataLengthM - sliceLength;
          length := length - sliceLength;
        } else {
          dataListM := dataListM[0 := Truncated(dataListM[0], length, 0)];
          dataLengthM := dataLengthM - length;
          FlatFront(dataListM);
          assert dataListM[1..] == rest;
          length := 0;
        }
      }
      assert Bytes()[0..] == Bytes();
      history := history + [Taken(lengthP)];
      dropped := lengthP;
    }

    /** clear */
    method Clear()
      modifies this
      ensures Valid() && Bytes() == [] && history == []
    {
      history := [];
      dataLengthM := 0;
      while dataListM != []
        invariant dataLengthM == 0 && history == []
        decreases |dataListM|
      {
        dataListM := dataListM[1..];
      }
    }
  }

  lemma InsideStep(slices: seq<seq<byte>>, offs: nat)
    requires slices != []
    ensures Inside(slices, offs) == if offs < |slices[0]| then offs else Inside(slices[1..], offs - |slices[0]|)
  {
  }

  lemma {:induction false} InsideStart(slices: seq<seq<byte>>)
    ensures Inside(slices, 0) == 0
  {
    if slices != [] && slices[0] == [] {
      InsideStart(slices[1..]);
    }
  }

  lemma SplicedNext(out: seq<byte>, start: seq<byte>, chunk: seq<byte>)
    requires |out| + |chunk| <= |start|
    ensures Spliced(out + start[|out|..], |out|, chunk) == (out + chunk) + start[|out + chunk|..]
  {
  }

  lemma SplicedAll(start: seq<byte>, out: seq<byte>)
    requires |out| <= |start|
    ensures Spliced(start, 0, out) == out + start[|out|..]
  {
  }

  /** How far getBytesToBuffer has come: d bytes have been passed, rest are the slices to come, out is what has been
      copied, and offs is where to start in the next slice. */
  ghost predicate Copying(all: seq<byte>, rest: seq<seq<byte>>, d: nat, srcOffs: nat, offs: nat, copied: nat,
                          length: nat, out: seq<byte>)
  {
    && d <= |all| && all[d..] == Flat(rest)
    && copied == |out| <= length
    && (copied > 0 ==> srcOffs + copied <= |all| && out == all[srcOffs..srcOffs + copied])
    && (copied < length ==> if copied == 0 then d + offs == srcOffs else offs == 0 && d == srcOffs + copied)
  }

  lemma CopyingStart(slices: seq<seq<byte>>, srcOffs: nat, length: nat)
    ensures Copying(Flat(slices), slices, 0, srcOffs, srcOffs, 0, length, [])
  {
  }

  lemma CopyingStep(all: seq<byte>, rest: seq<seq<byte>>, d: nat, srcOffs: nat, offs: nat, copied: nat, length: nat,
                    out: seq<byte>, more: seq<byte>)
    requires Copying(all, rest, d, srcOffs, offs, copied, length, out) && copied < length && rest != []
    requires more == Chunk(rest[0], offs, length - copied)
    ensures more == [] ==> offs >= |rest[0]|
    ensures more == [] ==>
              Copying(all, rest[1..], d + |rest[0]|, srcOffs, offs - |rest[0]|, copied, length, out)
    ensures more != [] ==>
              Copying(all, rest[1..], d + |rest[0]|, srcOffs, 0, copied + |more|, length, out + more)
  {
    assert rest[0..] == rest;
    Advance(all, d, rest, 0);
    if more != [] {
      CopiedMore(all, d, rest[0], srcOffs, copied, offs, |more|, out + more);
    }
  }

  lemma CopyingEnd(all: seq<byte>, rest: seq<seq<byte>>, d: nat, srcOffs: nat, offs: nat, copied: nat, length: nat,
                   out: seq<byte>)
    requires Copying(all, rest, d, srcOffs, offs, copied, length, out) && (copied == length || rest == [])
    ensures out == Chunk(all, srcOffs, length)
  {
  }

  /** The bytes copied so far and those from a slice are consecutive. */
  lemma CopiedMore(all: seq<byte>, d: nat, slice: seq<byte>, srcOffs: nat, copied: nat, offs: nat, more: nat,
                   out: seq<byte>)
    requires d + |slice| <= |all| && all[d..d + |slice|] == slice && offs + more <= |slice| && |out| == copied + more
    requires if copied == 0 then d + offs == srcOffs else offs == 0 && d == srcOffs + copied
    requires copied > 0 ==> out[..copied] == all[srcOffs..srcOffs + copied]
    requires out[copied..] == slice[offs..offs + more]
    ensures srcOffs + copied + more <= |all| && out == all[srcOffs..srcOffs + copied + more]
  {
    forall k | 0 <= k < |slice|
      ensures slice[k] == all[d + k]
    {
      assert all[d..d + |slice|][k] == all[d + k];
    }
    assert out == out[..copied] + out[copied..];
  }
}
