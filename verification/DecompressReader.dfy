/** `DecompressReader` of `_compression.py`: random access over a forward-only decoder, proved to
    behave like reading the decompressed bytes from memory. */
module DecompressReader {
  import opened Wrappers

  type Byte = bv8

  const BUFFER_SIZE := 8192
  const MAXSIZE := 0x7FFF_FFFF_FFFF_FFFF

  datatype ReadError = EOFError | ValueError

  // ---- what a compressed file decompresses to ----

  /** A deterministic decoder: what each further compressed byte adds to the output, and whether it
      was the last one of its stream. */
  datatype Step<S> = Step(state: S, output: seq<Byte>, done: bool)

  datatype Codec<!S> = Codec(start: S, step: (S, Byte) -> Step<S>)

  /** The output still to come, and whether the input ends exactly at the end of a stream. */
  datatype Decoded = Decoded(output: seq<Byte>, complete: bool)

  /** Decoding `input` from a decoder state, starting a new stream whenever one is done. */
  function Decode<S>(c: Codec<S>, state: S, done: bool, input: seq<Byte>): Decoded
    decreases |input|
  {
    if input == [] then Decoded([], done)
    else
      var step := c.step(if done then c.start else state, input[0]);
      var rest := Decode(c, step.state, step.done, input[1..]);
      Decoded(step.output + rest.output, rest.complete)
  }

  /** All of a file: the first stream has to be there. */
  function DecodeFile<S>(c: Codec<S>, content: seq<Byte>): Decoded {
    Decode(c, c.start, false, content)
  }

  lemma {:induction false} DecodeConcat<S>(c: Codec<S>, state: S, done: bool, a: seq<Byte>, b: seq<Byte>)
    requires Decode(c, state, done, a).complete
    ensures var first, second := Decode(c, state, done, a), Decode(c, c.start, true, b);
            Decode(c, state, done, a + b) == Decoded(first.output + second.output, second.complete)
    decreases |a|
  {
    if a == [] {
      assert a + b == b;
      if b != [] { FreshStart(c, state, b); FreshStart(c, c.start, b); }
    } else {
      var step := c.step(if done then c.start else state, a[0]);
      assert (a + b)[1..] == a[1..] + b;
      DecodeConcat(c, step.state, step.done, a[1..], b);
      var first, second := Decode(c, step.state, step.done, a[1..]), Decode(c, c.start, true, b);
      assert step.output + (first.output + second.output) == (step.output + first.output) + second.output;
    }
  }

  /** Files of whole streams can be concatenated: they decompress one after the other. */
  lemma ConcatenatedFiles<S>(c: Codec<S>, a: seq<Byte>, b: seq<Byte>)
    requires DecodeFile(c, a).complete && b != []
    ensures DecodeFile(c, a + b) == Decoded(DecodeFile(c, a).output + DecodeFile(c, b).output, DecodeFile(c, b).complete)
  {
    DecodeConcat(c, c.start, false, a, b);
    FreshStart(c, c.start, b);
  }

  // ---- the file and the decompressor objects ----

  class RawFile {
    const content: seq<Byte>
    var pos: nat

    ghost predicate Valid()
      reads this
    {
      pos <= |content|
    }

    constructor (content: seq<Byte>)
      ensures Valid() && this.content == content && pos == 0
    {
      this.content := content;
      pos := 0;
    }

    /** A raw read may return fewer bytes than asked for, but none only at the end of the file. */
    method Read(n: nat) returns (block: seq<Byte>)
      requires Valid() && 0 < n
      modifies this
      ensures Valid() && old(pos) <= pos && |block| <= n && block == content[old(pos)..pos]
      ensures block == [] ==> pos == |content|
    {
      if pos == |content| { return []; }
      var k: nat :| 1 <= k <= n && pos + k <= |content|;
      block := content[pos..pos + k];
      pos := pos + k;
    }

    method Rewind()
      modifies this
      ensures Valid() && pos == 0
    {
      pos := 0;
    }
  }

  class Decompressor<!S> {
    const codec: Codec<S>
    var state: S
    var done: bool
    var inbuf: seq<Byte>
    var outbuf: seq<Byte>
    var eof: bool
    var needsInput: bool
    var unusedData: seq<Byte>

    ghost predicate Valid()
      reads this
    {
      && (eof <==> done && outbuf == [])
      && (eof ==> inbuf == []) && (!eof ==> unusedData == [])
      && (needsInput <==> !eof && inbuf == [] && outbuf == [])
    }

    constructor (codec: Codec<S>)
      ensures Valid() && this.codec == codec && state == codec.start && !done && !eof
      ensures inbuf == outbuf == unusedData == []
    {
      this.codec, state, done := codec, codec.start, false;
      inbuf, outbuf, eof, needsInput, unusedData := [], [], false, true, [];
    }

    /** The output still to come when `more` follows the input already given. */
    ghost function Future(more: seq<Byte>): Decoded
      reads this
    {
      var d := Decode(codec, state, done, inbuf + unusedData + more);
      Decoded(outbuf + d.output, d.complete)
    }

    /** Feeds one buffered byte to the decoder. */
    method StepOnce(ghost more: seq<Byte>)
      requires !done && inbuf != [] && unusedData == []
      modifies this`state, this`done, this`inbuf, this`outbuf
      ensures inbuf == old(inbuf)[1..] && |outbuf| >= old(|outbuf|) && Future(more) == old(Future(more))
    {
      var step := codec.step(state, inbuf[0]);
      assert (inbuf + unusedData + more)[1..] == inbuf[1..] + unusedData + more;
      ghost var rest := Decode(codec, step.state, step.done, inbuf[1..] + unusedData + more);
      assert outbuf + (step.output + rest.output) == (outbuf + step.output) + rest.output;
      state, done, outbuf, inbuf := step.state, step.done, outbuf + step.output, inbuf[1..];
    }

    /** `decompress(data, max_length)`. How far the decoder works ahead, and how much of what it has
        it returns, is left open; it returns nothing only when it has nothing and has used its input. */
    method Decompress(data: seq<Byte>, maxLength: nat, ghost more: seq<Byte>) returns (out: seq<Byte>)
      requires Valid() && !eof && 0 < maxLength
      requires needsInput || data == []
      modifies this
      ensures Valid() && |out| <= maxLength
      ensures old(Future(data + more)) == Decoded(out + Future(more).output, Future(more).complete)
      ensures |inbuf| + |unusedData| <= old(|inbuf|) + |data|
      ensures out == [] ==> old(outbuf) == [] && inbuf == []
      ensures out == [] && old(inbuf) + data != [] ==> |inbuf| + |unusedData| < old(|inbuf|) + |data|
    {
      ghost var before := Future(data + more);
      assert inbuf + unusedData + (data + more) == (inbuf + data) + unusedData + more;
      inbuf := inbuf + data;
      ghost var available := |inbuf|;
      while |outbuf| < maxLength && inbuf != [] && !done
        invariant unusedData == [] && Future(more) == before && |inbuf| <= available && |outbuf| >= old(|outbuf|)
        invariant |inbuf| == available ==> outbuf == old(outbuf) && done == old(done)
        decreases |inbuf|
      {
        StepOnce(more);
      }
      while *
        invariant unusedData == [] && Future(more) == before && |inbuf| <= available && |outbuf| >= old(|outbuf|)
        invariant |outbuf| < maxLength && inbuf != [] ==> done
        invariant |inbuf| == available ==> outbuf == old(outbuf) && done == old(done)
        decreases |inbuf|
      {
        if inbuf == [] || done { break; }
        StepOnce(more);
      }
      out := Deliver(maxLength, more);
    }

    /** The end of `decompress`: part of the output is returned, and the end of the stream noticed. */
    method Deliver(maxLength: nat, ghost more: seq<Byte>) returns (out: seq<Byte>)
      requires 0 < maxLength && unusedData == [] && (|outbuf| < maxLength && inbuf != [] ==> done)
      modifies this`outbuf, this`eof, this`needsInput, this`inbuf, this`unusedData
      ensures Valid() && |out| <= maxLength && out + outbuf == old(outbuf) && (out == [] ==> old(outbuf) == [])
      ensures inbuf + unusedData == old(inbuf) && (eof ==> inbuf == []) && (out == [] ==> inbuf == [])
      ensures old(Future(more)) == Decoded(out + Future(more).output, Future(more).complete)
    {
      var n: nat :| n <= |outbuf| && n <= maxLength && (n == 0 ==> outbuf == []);
      out := outbuf[..n];
      ghost var d := Decode(codec, state, done, inbuf + unusedData + more);
      assert out + (outbuf[n..] + d.output) == outbuf + d.output;
      outbuf := outbuf[n..];
      eof := done && outbuf == [];
      if eof {
        assert [] + inbuf + more == inbuf + [] + more;
        inbuf, unusedData := [], inbuf;
      }
      needsInput := !eof && inbuf == [] && outbuf == [];
    }
  }

  // ---- the reader ----

  /** Python's `whence` argument. */
  const SEEK_SET := 0
  const SEEK_CUR := 1
  const SEEK_END := 2

  function Clamp(x: int, size: nat): nat {
    if x < 0 then 0 else if x > size then size else x
  }

  class Reader<!S> {
    const codec: Codec<S>
    const fp: RawFile
    var decompressor: Decompressor<S>
    var pos: nat
    var size: int
    var eof: bool

    /** The decompressed file. */
    ghost function Full(): Decoded {
      DecodeFile(codec, fp.content)
    }

    ghost predicate Valid()
      reads this, fp, decompressor
    {
      && fp.Valid() && decompressor.Valid() && decompressor.codec == codec
      && pos <= |Full().output|
      && decompressor.Future(fp.content[fp.pos..]) == Decoded(Full().output[pos..], Full().complete)
      && (size == -1 || (size == |Full().output| && Full().complete))
      && (eof ==> pos == |Full().output| && Full().complete && size != -1)
    }

    constructor (fp: RawFile, codec: Codec<S>)
      requires fp.Valid() && fp.pos == 0
      ensures Valid() && this.fp == fp && this.codec == codec && pos == 0 && fresh(decompressor)
    {
      this.fp, this.codec, pos, size, eof := fp, codec, 0, -1, false;
      decompressor := new Decompressor<S>(codec);
      new;
      assert [] + [] + fp.content[0..] == fp.content;
    }

    /** What a call of `read(n)` with n > 0 gives, for the position before and after it. */
    ghost predicate ReadGives(result: Result<seq<Byte>, ReadError>, n: nat, before: nat)
      reads this, fp
    {
      var full := Full();
      match result
      case Success(data) =>
        && before + |data| == pos <= |full.output| && |data| <= n && data == full.output[before..pos]
        && (data == [] ==> pos == |full.output| && full.complete)
      case Failure(e) => e == EOFError && before == pos == |full.output| && !full.complete
    }

    /** `read(n)` for a positive `n` */
    method ReadSome(n: nat) returns (result: Result<seq<Byte>, ReadError>)
      requires Valid() && 0 < n
      modifies this, fp, decompressor
      ensures Valid() && ReadGives(result, n, old(pos))
      ensures decompressor == old(decompressor) || fresh(decompressor)
      ensures old(size) != -1 ==> size == old(size)
      ensures result.Success? && result.value == [] ==> eof
    {
      if eof {
        return Success([]);
      }
      var data, status := PumpSome(n);
      if status == Truncated { return Failure(EOFError); }
      if data == [] {
        eof := true;
        size := pos;
        return Success([]);
      }
      Advance(data);
      return Success(data);
    }

    /** The loop of `read`, until there is data or the end of the file. */
    method PumpSome(n: nat) returns (data: seq<Byte>, status: Status)
      requires Valid() && !eof && 0 < n
      modifies fp, this`decompressor, decompressor
      ensures decompressor == old(decompressor) || fresh(decompressor)
      ensures fp.Valid() && |data| <= n && Holding(data)
      ensures data == [] ==> Valid() && status != More && pos == |Full().output|
      ensures status == Truncated ==> data == [] && !Full().complete
      ensures data == [] && status == AtEnd ==> Full().complete
    {
      while true
        invariant Valid() && !eof && pos == old(pos) && size == old(size)
        invariant decompressor == old(decompressor) || fresh(decompressor)
        decreases Unread()
      {
        data, status := Pump(n);
        if status != More || data != [] { return; }
      }
    }

    /** Compressed bytes not yet decoded. */
    ghost function Unread(): nat
      requires fp.Valid()
      reads this, fp, decompressor
    {
      |fp.content| - fp.pos + |decompressor.inbuf| + |decompressor.unusedData|
    }

    /** The decompressor has handed out `data`, which the position does not count yet. */
    ghost predicate Holding(data: seq<Byte>)
      requires fp.Valid()
      reads this, fp, decompressor
    {
      && decompressor.Valid() && decompressor.codec == codec && pos <= |Full().output|
      && var future := decompressor.Future(fp.content[fp.pos..]);
         Decoded(data + future.output, future.complete) == Decoded(Full().output[pos..], Full().complete)
    }

    method Advance(data: seq<Byte>)
      requires fp.Valid() && Holding(data)
      requires !eof && (size == -1 || (size == |Full().output| && Full().complete))
      modifies this`pos
      ensures Valid() && pos == old(pos) + |data| && data == Full().output[old(pos)..pos]
    {
      ghost var rest := decompressor.Future(fp.content[fp.pos..]).output;
      assert |data| + |rest| == |Full().output[pos..]|;
      assert Full().output[pos..][|data|..] == rest == Full().output[pos + |data|..];
      assert Full().output[pos..][..|data|] == data == Full().output[pos..pos + |data|];
      pos := pos + |data|;
    }

    /** One pass of the loop of `read`. */
    method Pump(n: nat) returns (data: seq<Byte>, status: Status)
      requires Valid() && !eof && 0 < n
      modifies fp, this`decompressor, decompressor
      ensures decompressor == old(decompressor) || fresh(decompressor)
      ensures fp.Valid() && |data| <= n && (status != More ==> data == [])
      ensures Holding(data)
      ensures status == AtEnd ==> pos == |Full().output| && Full().complete
      ensures status == Truncated ==> pos == |Full().output| && !Full().complete
      ensures status == More && data == [] ==> Unread() < old(Unread())
    {
      if decompressor.eof {
        data, status := NextStream(n);
      } else {
        data, status := SameStream(n);
      }
    }

    /** The branch of `read` for a decompressor at the end of its stream. */
    method NextStream(n: nat) returns (data: seq<Byte>, status: Status)
      requires Valid() && !eof && 0 < n && decompressor.eof
      modifies fp, this`decompressor
      ensures decompressor == old(decompressor) || fresh(decompressor)
      ensures fp.Valid() && |data| <= n && Holding(data)
      ensures status == AtEnd ==> data == [] && pos == |Full().output| && Full().complete
      ensures status == More && data == [] ==> Unread() < old(Unread())
      ensures status != Truncated
    {
      ghost var before := fp.content[fp.pos..];
      var rawblock := decompressor.unusedData;
      if rawblock == [] {
        rawblock := fp.Read(BUFFER_SIZE);
      }
      ghost var after := fp.content[fp.pos..];
      assert decompressor.inbuf + decompressor.unusedData + before == rawblock + after;
      if rawblock == [] {
        return [], AtEnd;
      }
      FreshStart(codec, decompressor.state, rawblock + after);
      decompressor := new Decompressor<S>(codec);
      assert [] + [] + (rawblock + after) == rawblock + after;
      data := decompressor.Decompress(rawblock, n, after);
      return data, More;
    }

    /** The branch of `read` for a decompressor inside its stream. */
    method SameStream(n: nat) returns (data: seq<Byte>, status: Status)
      requires Valid() && !eof && 0 < n && !decompressor.eof
      modifies fp, decompressor
      ensures fp.Valid() && |data| <= n && Holding(data)
      ensures status == Truncated ==> data == [] && pos == |Full().output| && !Full().complete
      ensures status == More && data == [] ==> Unread() < old(Unread())
      ensures status != AtEnd
    {
      ghost var before := fp.content[fp.pos..];
      var rawblock := [];
      if decompressor.needsInput {
        rawblock := fp.Read(BUFFER_SIZE);
        if rawblock == [] {
          return [], Truncated;
        }
      }
      ghost var after := fp.content[fp.pos..];
      assert before == rawblock + after;
      data := decompressor.Decompress(rawblock, n, after);
      return data, More;
    }

    /** `readall` */
    method ReadAll() returns (result: Result<seq<Byte>, ReadError>)
      requires Valid()
      modifies this, fp, decompressor
      ensures Valid() && pos == |Full().output|
      ensures decompressor == old(decompressor) || fresh(decompressor)
      ensures result == if Full().complete then Success(Full().output[old(pos)..]) else Failure(EOFError)
    {
      ghost var full, start := Full().output, pos;
      var chunks := [];
      while true
        invariant Valid() && start <= pos <= |full| && chunks == full[start..pos]
        invariant decompressor == old(decompressor) || fresh(decompressor)
        decreases |full| - pos
      {
        ghost var before := pos;
        var data := ReadSome(MAXSIZE);
        if data.Failure? { return data; }
        if data.value == [] { break; }
        SlicesJoin(full, start, before, pos);
        chunks := chunks + data.value;
      }
      assert full[start..pos] == full[start..];
      return Success(chunks);
    }

    /** `read` */
    method Read(n: int) returns (result: Result<seq<Byte>, ReadError>)
      requires Valid()
      modifies this, fp, decompressor
      ensures Valid() && (decompressor == old(decompressor) || fresh(decompressor))
      ensures n > 0 ==> ReadGives(result, n, old(pos))
      ensures n == 0 ==> result == Success([]) && pos == old(pos)
      ensures n < 0 ==> pos == |Full().output|
      ensures n < 0 ==> result == if Full().complete then Success(Full().output[old(pos)..]) else Failure(EOFError)
    {
      if n < 0 {
        result := ReadAll();
      } else if n == 0 {
        result := Success([]);
      } else {
        result := ReadSome(n);
      }
    }

    /** `_rewind` */
    method Rewind()
      requires Valid()
      modifies this, fp
      ensures Valid() && pos == 0 && size == old(size) && fresh(decompressor)
    {
      fp.Rewind();
      eof, pos := false, 0;
      decompressor := new Decompressor<S>(codec);
      assert [] + [] + fp.content[0..] == fp.content;
    }

    /** The loop of `seek` that reads and throws away up to the target. */
    method SkipTo(target: int) returns (result: Result<nat, ReadError>)
      requires Valid() && pos <= target
      modifies this, fp, decompressor
      ensures Valid() && (decompressor == old(decompressor) || fresh(decompressor))
      ensures target <= |Full().output| || Full().complete ==> result == Success(pos) && pos == Clamp(target, |Full().output|)
      ensures target > |Full().output| && !Full().complete ==> result == Failure(EOFError) && pos == |Full().output|
    {
      var offset := target - pos;
      while offset > 0
        invariant Valid() && pos + offset == target && 0 <= offset
        invariant decompressor == old(decompressor) || fresh(decompressor)
        decreases offset
      {
        var data := ReadSome(if offset < BUFFER_SIZE then offset else BUFFER_SIZE);
        if data.Failure? { return Failure(data.error); }
        if data.value == [] { break; }
        offset := offset - |data.value|;
      }
      return Success(pos);
    }

    /** Reading to the end so that the size gets known. */
    method FindSize() returns (result: Result<nat, ReadError>)
      requires Valid()
      modifies this, fp, decompressor
      ensures Valid() && (decompressor == old(decompressor) || fresh(decompressor))
      ensures Full().complete ==> result == Success(|Full().output|)
      ensures !Full().complete ==> result == Failure(EOFError) && pos == |Full().output|
    {
      while size < 0
        invariant Valid() && (decompressor == old(decompressor) || fresh(decompressor))
        decreases |Full().output| - pos, size < 0
      {
        var data := ReadSome(BUFFER_SIZE);
        if data.Failure? { return Failure(data.error); }
        if data.value == [] { break; }
      }
      var known: nat := size;
      return Success(known);
    }

    /** Where `seek` aims, from the position it starts at. */
    ghost function Target(offset: int, whence: int): int
      reads this
    {
      if whence == SEEK_SET then offset else if whence == SEEK_CUR then pos + offset else |Full().output| + offset
    }

    /** `seek`: the target, clamped to the decompressed data. A truncated file raises when its size is
        asked for or the target lies behind its end. */
    method Seek(offset: int, whence: int) returns (result: Result<nat, ReadError>)
      requires Valid()
      modifies this, fp, decompressor
      ensures Valid() && (decompressor == old(decompressor) || fresh(decompressor))
      ensures whence !in {SEEK_SET, SEEK_CUR, SEEK_END} ==> result == Failure(ValueError) && pos == old(pos)
      ensures whence in {SEEK_SET, SEEK_CUR, SEEK_END} ==>
        var full, target := Full(), old(Target(offset, whence));
        if full.complete || (whence != SEEK_END && target <= |full.output|)
        then result == Success(pos) && pos == Clamp(target, |full.output|)
        else result == Failure(EOFError) && pos == |full.output|
    {
      var target := offset;
      if whence == SEEK_CUR {
        target := pos + offset;
      } else if whence == SEEK_END {
        var end := FindSize();
        if end.Failure? { return end; }
        target := end.value + offset;
      } else if whence != SEEK_SET {
        return Failure(ValueError);
      }
      if target < pos {
        Rewind();
        if target < 0 { return Success(0); }
      }
      result := SkipTo(target);
    }

    /** `tell` */
    method Tell() returns (p: nat)
      requires Valid()
      ensures p == pos && p <= |Full().output|
    {
      p := pos;
    }
  }

  datatype Status = More | AtEnd | Truncated

  lemma SlicesJoin(s: seq<Byte>, a: nat, b: nat, c: nat)
    requires a <= b <= c <= |s|
    ensures s[a..b] + s[b..c] == s[a..c]
  {
  }

  lemma FreshStart<S>(c: Codec<S>, state: S, input: seq<Byte>)
    requires input != []
    ensures Decode(c, state, true, input) == Decode(c, c.start, false, input)
  {
  }
}
