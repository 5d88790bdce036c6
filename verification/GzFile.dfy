/** The seek, tell, rewind and read operations of zlib's gz files (gzlib.c, gzread.c), against a single cursor. */
module GzFile {
  import opened MachineInts

  datatype Mode = Unopened | Reading | Writing

  /** How the input is treated: still looking for a header, copied as it is, or decompressed. */
  datatype How = Look | Copy | Gzip

  datatype Error = Ok | BufError | Fatal

  datatype Whence = SeekSet | SeekCur | SeekEnd

  /** The errors that do not stop an operation. */
  predicate Good(e: Error)
  {
    e != Fatal
  }

  predicate Fits(x: int)
  {
    -TWO_63 <= x < TWO_63
  }

  /** At most len bytes of the stream from position c on. */
  function Slice(data: seq<byte>, c: nat, len: nat): seq<byte>
  {
    if c >= |data| then [] else if c + len <= |data| then data[c..c + len] else data[c..]
  }

  function Min(a: int, b: int): int
  {
    if a <= b then a else b
  }

  class GzState {
    /** What the file holds after start, uncompressed; raw if there is no gzip header and it is copied as it is. */
    const data: seq<byte>
    const raw: bool
    const start: i64
    /** The input buffer's size; the output buffer has twice as much. */
    const size: nat
    const out: array<byte>

    var mode: Mode
    /** x.have bytes of output are waiting at x.next in the output buffer; x.pos is the position of the first. */
    var have: nat
    var next: nat
    var pos: i64
    /** A seek request that is still pending, and how far it goes. */
    var seek: bool
    var skip: i64
    var how: How
    var eof: bool
    var past: bool
    var reset: bool
    var err: Error
    var availIn: nat
    /** The offset of the file descriptor. */
    var offset: i64

    /** A file opened for reading at offset start. */
    constructor (data: seq<byte>, raw: bool, start: i64, size: nat)
      requires size > 0 && start >= 0 && start + |data| < TWO_63
      ensures Valid() && fresh(out) && mode == Reading && Good(err) && Tell() == 0 && this.data == data
      ensures how == Look && have == 0 && !seek && this.start == start
    {
      this.data, this.raw, this.start, this.size := data, raw, start, size;
      out := new byte[2 * size];
      mode, have, next, pos, seek, skip := Reading, 0, 0, 0, false, 0;
      how, eof, past, reset, err, availIn, offset := Look, false, false, false, Ok, 0, start;
    }

    ghost predicate Valid()
      reads this, out
    {
      && size > 0 && out.Length == 2 * size && start >= 0 && start + |data| < TWO_63 && pos >= 0
      && (seek ==> skip > 0 && Fits(pos + skip))
      && (mode == Reading && seek ==> have == 0 && how != Copy)
      && (mode == Reading && Good(err) ==> Positioned())
    }

    /** What waits in the output buffer is the stream from the current position on. */
    ghost predicate Buffered()
      requires pos >= 0
      reads this`have, this`next, this`pos, out
    {
      && next + have <= out.Length
      && (have > 0 ==> pos + have <= |data| && out[next..next + have] == data[pos..pos + have])
    }

    /** The output buffer holds the stream at the current position, and the input is where that output ends. */
    ghost predicate Positioned()
      requires size > 0 && out.Length == 2 * size && pos >= 0
      reads this, out
    {
      && Buffered()
      && (!raw ==> pos + have <= |data|)
      && (raw ==> how != Gzip && availIn == 0) && (!raw ==> how != Copy)
      && (raw && how == Look ==> pos == 0 && have == 0)
      && (raw ==> offset == start + pos + have)
      && (AtEnd() ==> pos + have >= |data|)
    }

    /** All input has been used. */
    predicate AtEnd()
      reads this
    {
      eof && availIn == 0
    }

    /** The position as seen from outside: gztell64. */
    function Tell(): int
      reads this
    {
      pos + if seek then skip else 0
    }

    /** gz_error, as far as the state goes. */
    method SetError(e: Error)
      modifies this`err, this`have
      ensures err == e && have == if Good(e) then old(have) else 0
    {
      if !Good(e) {
        have := 0;
      }
      err := e;
    }

    /** gz_reset. */
    method Reset()
      modifies this
      ensures mode == old(mode) && offset == old(offset) && next == old(next) && skip == old(skip)
      ensures have == 0 && !seek && err == Ok && pos == 0 && availIn == 0
      ensures if mode == Reading then !eof && !past && how == Look && reset == old(reset)
              else !reset && eof == old(eof) && past == old(past) && how == old(how)
    {
      have := 0;
      if mode == Reading {
        eof := false;
        past := false;
        how := Look;
      } else {
        reset := false;
      }
      seek := false;
      SetError(Ok);
      pos := 0;
      availIn := 0;
    }

    /** LSEEK: fails if the system call does, or if the offset would be negative or too large. */
    method LSeek(to: int, works: bool) returns (ok: bool)
      modifies this`offset
      ensures ok == (works && 0 <= to < TWO_63)
      ensures offset == if ok then to else old(offset)
    {
      ok := works && 0 <= to < TWO_63;
      if ok {
        offset := to;
      }
    }

    /** gzrewind. */
    method Rewind(works: bool) returns (ok: bool)
      requires Valid()
      modifies this
      ensures Valid()
      ensures ok == (mode == Reading && Good(old(err)) && works)
      ensures ok ==> Tell() == 0 && offset == start && have == 0 && how == Look && err == Ok
      ensures ok ==> availIn == 0 && !eof && !past
      ensures !ok ==> unchanged(this)
      ensures mode == old(mode)
    {
      if mode != Reading || !Good(err) {
        return false;
      }
      ok := LSeek(start, works);
      if !ok {
        return;
      }
      Reset();
    }

    /** The position a seek asks for. */
    function Target(to: i64, whence: Whence): int
      reads this
    {
      if whence == SeekSet then to else Tell() + to
    }

    /** What makes a seek fail before it changes anything. */
    predicate Refused(whence: Whence)
      reads this
    {
      mode == Unopened || !Good(err) || whence == SeekEnd
    }

    /** A seek that moves the file descriptor: anywhere in a copied file, and backwards otherwise. */
    predicate Moves(target: int)
      reads this
    {
      mode == Reading && 0 <= target && (how == Copy || target < pos)
    }

    /** The part of gzseek64 for copied files: the file descriptor itself moves. */
    method SeekRaw(rel: i64, works: bool) returns (ok: bool)
      requires Valid() && mode == Reading && Good(err) && how == Copy && !seek
      requires 0 <= pos + rel && Fits(pos + rel)
      modifies this
      ensures Valid() && mode == old(mode) && how == Copy && !seek
      ensures Good(err) && ok == (works && start + old(pos) + rel < TWO_63)
      ensures pos == old(pos) + if ok then rel else 0
      ensures offset - have - pos == old(offset - have - pos)
    {
      hide Buffered;
      NextFits();
      ok := LSeek(offset + (rel - have), works);
      if ok {
        SetError(Ok);
        have, eof, past, seek, availIn, pos := 0, false, false, false, 0, pos + rel;
        NothingBuffered();
      }
    }

    lemma NextFits()
      requires pos >= 0 && Buffered()
      ensures next <= out.Length
    {
    }

    lemma NothingBuffered()
      requires pos >= 0 && have == 0 && next <= out.Length
      ensures Buffered()
    {
    }

    /** The part of gzseek64 that takes what it can from the output buffer. */
    method SkipOutput(rel: i64) returns (left: i64)
      requires Valid() && mode == Reading && Good(err) && !seek && rel >= 0 && Fits(pos + rel)
      modifies this`have, this`next, this`pos
      ensures Valid() && pos + left == old(pos) + rel && 0 <= left && (left > 0 ==> have == 0)
      ensures pos == old(pos) + Min(old(have), rel) && have == old(have) - Min(old(have), rel)
      ensures old(pos) <= |data| ==> pos <= |data|
      ensures offset - have - pos == old(offset - have - pos)
    {
      var n := if have > rel then rel else have;
      ghost var waiting := out[next..next + have];
      assert waiting[n..] == out[next + n..next + have];
      have, next, pos := have - n, next + n, pos + n;
      left := rel - n;
    }

    /** What makes a seek fail after the request pending before it has been dropped. */
    predicate FailsLate(target: int, works: bool)
      reads this
    {
      || target < (if mode == Writing then pos else 0)
      || (Moves(target) && !(works && (how == Copy ==> start + target < TWO_63)))
    }

    /** gzseek64 from a position that is not before the target: what the output buffer does not give is requested. */
    method SeekForward(rel: i64) returns (ret: i64)
      requires Valid() && mode != Unopened && Good(err) && !seek && rel >= 0 && Fits(pos + rel)
      requires mode == Reading ==> how != Copy
      modifies this`have, this`next, this`pos, this`seek, this`skip
      ensures Valid() && ret == old(pos) + rel == Tell()
      ensures pos == old(pos) + if mode == Reading then Min(old(have), rel) else 0
      ensures offset - have - pos == old(offset - have - pos)
    {
      hide Positioned;
      var left := rel;
      if mode == Reading {
        left := SkipOutput(left);
      }
      if left != 0 {
        Request(left);
      }
      ret := pos + left;
    }

    /** gzseek64 for a target relative to the current position, no request being pending. */
    method SeekRelative(rel: i64, works: bool) returns (ret: i64)
      requires Valid() && mode != Unopened && Good(err) && !seek && Fits(pos + rel)
      modifies this
      ensures Valid() && mode == old(mode) && Good(err)
      ensures ret == -1 <==> old(FailsLate(pos + rel, works))
      ensures ret != -1 ==> ret == old(pos) + rel == Tell()
      ensures ret == -1 ==> pos == old(pos) && !seek
      ensures ret != -1 && rel >= 0 && !(mode == Reading && old(how) == Copy) ==>
                pos == old(pos) + if mode == Reading then Min(old(have), rel) else 0
      ensures mode == Reading && old(how) == Copy ==> how == Copy && offset - have - pos == old(offset - have - pos)
      ensures ret != -1 && rel < 0 && old(how) != Copy ==> offset == start
    {
      hide Positioned;
      if mode == Reading && how == Copy && pos + rel >= 0 {
        var ok := SeekRaw(rel, works);
        return if ok then pos else -1;
      }
      var ahead := rel;
      if rel < 0 {
        if mode != Reading {
          return -1;
        }
        ahead := rel + pos;
        if ahead < 0 {
          return -1;
        }
        var ok := Rewind(works);
        if !ok {
          return -1;
        }
      }
      ret := SeekForward(ahead);
    }

    /**
     * gzseek64. It fails exactly if the request is refused, if the target lies before the start or, when writing,
     * before what has been written, or if the file descriptor has to be moved and cannot be. Otherwise the result is
     * the target, and so is the position. A seek that fails late loses the pending request before it, if any.
     */
    method Seek(to: i64, whence: Whence, works: bool) returns (ret: i64)
      requires Valid()
      requires Fits(Target(to, whence)) && Fits(Target(to, whence) - pos)
      modifies this
      ensures Valid() && mode == old(mode) && Good(err) == old(Good(err))
      ensures ret == -1 <==> old(Refused(whence) || FailsLate(Target(to, whence), works))
      ensures ret != -1 ==> ret == old(Target(to, whence)) == Tell()
      ensures ret == -1 ==> pos == old(pos)
      ensures ret == -1 ==> (if old(Refused(whence)) then seek == old(seek) && skip == old(skip) else !seek)
      ensures var rel := old(Target(to, whence) - pos);
              ret != -1 && rel >= 0 && !(mode == Reading && old(how) == Copy) ==>
                pos == old(pos) + if mode == Reading then Min(old(have), rel) else 0
      ensures mode == Reading && old(how) == Copy && !old(Refused(whence)) ==>
                how == Copy && offset - have - pos == old(offset - have - pos)
      ensures ret != -1 && old(Moves(Target(to, whence)) && how != Copy) ==> offset == start
    {
      hide Positioned;
      if mode == Unopened || !Good(err) || whence == SeekEnd {
        return -1;
      }
      var rel: i64 := to;
      if whence == SeekSet {
        rel := rel - pos;
      } else if seek {
        rel := rel + skip;
      }
      Forget();
      ret := SeekRelative(rel, works);
    }

    /** No seek request is pending any more. */
    method Forget()
      requires Valid()
      modifies this`seek
      ensures Valid() && !seek
    {
      seek := false;
    }

    /** A seek request is pending. */
    method Request(rel: i64)
      requires Valid() && rel > 0 && Fits(pos + rel) && (mode == Reading ==> have == 0 && how != Copy)
      modifies this`seek, this`skip
      ensures Valid() && seek && skip == rel
    {
      seek := true;
      skip := rel;
    }

    // ---- Reading: gzread.c ----

    /** The output buffer receives n bytes of the stream from position p on. */
    method Deliver(p: nat, n: nat)
      requires out.Length == 2 * size && n <= out.Length && p + n <= |data|
      modifies this`have, this`next, out
      ensures next == 0 && have == n && out[0..n] == data[p..p + n]
    {
      for i := 0 to n
        invariant forall j :: 0 <= j < i ==> out[j] == data[p + j]
      {
        out[i] := data[p + i];
      }
      next, have := 0, n;
    }

    /** gz_load into the output buffer for a copied file: as much as there is room for. */
    method LoadCopy()
      requires Valid() && mode == Reading && Good(err) && !seek && have == 0 && raw && how == Copy
      modifies this, out
      ensures Valid() && mode == Reading && Good(err) && !seek && pos == old(pos) && past == old(past)
      ensures have == 0 ==> AtEnd()
    {
      var n := if pos >= |data| then 0 else Min(2 * size, |data| - pos);
      if n > 0 {
        Deliver(pos, n);
      }
      offset := offset + n;
      if n < 2 * size {
        eof := true;
      }
    }

    /** gz_look in a file without a gzip header: one input buffer is read and handed on as output. */
    method LookRaw()
      requires Valid() && mode == Reading && Good(err) && !seek && have == 0 && raw && how == Look
      modifies this, out
      ensures Valid() && mode == Reading && Good(err) && !seek && pos == old(pos) && past == old(past)
      ensures have == 0 ==> AtEnd()
    {
      var n := Min(size, |data|);
      if n < size {
        eof := true;
      }
      if n > 0 {
        Deliver(0, n);
        how := Copy;
        offset := offset + n;
      }
    }

    /** Some amount of output that fits: none only at the end of the stream. */
    method ChooseAmount(limit: nat) returns (n: nat)
      ensures n <= limit && (n == 0 ==> limit == 0)
    {
      n := *;
      if n == 0 || n > limit {
        n := limit;
      }
    }

    /** What decompression leaves of the input is open, but for the end of the input being the end of the stream. */
    method InputState()
      requires Valid() && mode == Reading && Good(err) && !seek && !raw && !eof && (have == 0 ==> pos >= |data|)
      modifies this`how, this`err, this`eof, this`availIn
      ensures Valid() && Good(err) && (have == 0 ==> AtEnd())
    {
      hide Buffered;
      var left: nat, ended: bool, e: Error, h: How := *, *, *, *;
      if have == 0 {
        left, ended := 0, true;
      } else if left == 0 && pos + have < |data| {
        ended := false;
      }
      how := if h == Look then Look else Gzip;
      err := if e == Ok then Ok else BufError;
      availIn, eof := left, ended;
    }

    /** gz_decomp into the output buffer: some amount of output, which the decompressor chooses. */
    method Decompress()
      requires Valid() && mode == Reading && Good(err) && !seek && have == 0 && !raw
      modifies this, out
      ensures Valid() && mode == Reading && Good(err) && !seek && pos == old(pos) && past == old(past)
      ensures have == 0 ==> AtEnd()
    {
      var n := ChooseAmount(Min(2 * size, |data| - pos));
      eof := false;
      Deliver(pos, n);
      InputState();
    }

    /** gz_fetch: more output at the current position, or the end of the input; an error only if it is not sound. */
    method Fetch(sound: bool) returns (ok: bool)
      requires Valid() && mode == Reading && Good(err) && !seek && have == 0
      modifies this, out
      ensures Valid() && mode == Reading && !seek && ok == Good(err)
      ensures past == old(past) && (sound ==> ok)
      ensures ok ==> pos == old(pos) && (have == 0 ==> AtEnd())
      ensures !ok ==> have == 0
    {
      var fails := *;
      if fails && !sound {
        SetError(Fatal);
        eof, availIn, offset := *, *, *;
        return false;
      }
      if !raw {
        Decompress();
      } else if how == Look {
        LookRaw();
      } else {
        LoadCopy();
      }
      ok := true;
    }

    /** gz_skip: len bytes on, or to the end of the input. */
    method SkipAhead(len: i64, sound: bool) returns (ok: bool)
      requires Valid() && mode == Reading && Good(err) && !seek && len >= 0 && Fits(pos + len) && pos <= |data|
      modifies this, out
      ensures Valid() && mode == Reading && !seek && ok == Good(err)
      ensures past == old(past) && (sound ==> ok)
      ensures ok ==> pos == Min(old(pos) + len, |data|)
    {
      var left := len;
      while left != 0
        invariant Valid() && mode == Reading && Good(err) && !seek && past == old(past)
        invariant left >= 0 && pos + left == old(pos) + len && pos <= |data|
        decreases left, if have > 0 then 0 else if AtEnd() then 1 else 2
      {
        if have > 0 {
          left := SkipOutput(left);
        } else if AtEnd() {
          break;
        } else {
          var fetched := Fetch(sound);
          if !fetched {
            return false;
          }
        }
      }
      ok := true;
    }

    /** Up to n bytes from the output buffer. */
    method TakeOutput(n: nat) returns (chunk: seq<byte>)
      requires Valid() && mode == Reading && Good(err) && !seek && have > 0 && n > 0
      modifies this`have, this`next, this`pos
      ensures Valid() && 0 < |chunk| <= n && pos == old(pos) + |chunk| && pos <= |data| && have == old(have) - |chunk|
      ensures chunk == data[old(pos)..pos]
    {
      var k := if have < n then have else n;
      chunk := out[next..next + k];
      assert chunk == out[next..next + have][..k];
      var _ := SkipOutput(k);
    }

    /** Up to n bytes of a copied file straight to the reader: gz_load into the reader's buffer. */
    method TakeCopy(n: nat) returns (chunk: seq<byte>)
      requires Valid() && mode == Reading && Good(err) && !seek && have == 0 && how == Copy && n > 0
      modifies this`eof, this`offset, this`pos
      ensures Valid() && |chunk| <= n && pos == old(pos) + |chunk|
      ensures |chunk| == 0 ==> AtEnd()
      ensures |chunk| > 0 ==> pos <= |data| && chunk == data[old(pos)..pos]
    {
      var k := if pos >= |data| then 0 else Min(n, |data| - pos);
      chunk := if k > 0 then data[pos..pos + k] else [];
      offset, pos, eof := offset + k, pos + k, eof || k < n;
    }

    /** Up to n bytes decompressed straight to the reader; none only if a gzip stream has come to its end. */
    method TakeDecompressed(n: nat) returns (chunk: seq<byte>)
      requires Valid() && mode == Reading && Good(err) && !seek && have == 0 && how == Gzip && n > 0
      modifies this
      ensures Valid() && mode == Reading && Good(err) && !seek && have == 0
      ensures |chunk| <= n && pos == old(pos) + |chunk| && (|chunk| == 0 ==> AtEnd() || how == Look)
      ensures past == old(past)
      ensures |chunk| > 0 ==> pos <= |data| && chunk == data[old(pos)..pos]
    {
      var k: nat, left: nat, ended: bool := *, *, *;
      if k > Min(n, |data| - pos) {
        k := Min(n, |data| - pos);
      }
      chunk := if k > 0 then data[pos..pos + k] else [];
      pos, eof := pos + k, false;
      if pos >= |data| {
        availIn, eof := left, ended;
      }
      if k == 0 {
        how := Look;
      }
    }

    /** The reader has tried to go past the end. */
    method ReadPast()
      requires Valid()
      modifies this`past
      ensures Valid() && past
    {
      past := true;
    }

    /** An error of the input: no more output. */
    method Fail()
      requires Valid() && mode == Reading
      modifies this
      ensures Valid() && mode == Reading && !Good(err) && have == 0 && seek == old(seek) && past == old(past)
    {
      SetError(Fatal);
      eof, availIn, offset := *, *, *;
    }

    /**
     * The loop of gz_read, no request being pending. It succeeds if the input is sound, and also without any input
     * if there is enough in the output buffer; it has tried to go past the end exactly if it returns less than asked.
     */
    method ReadOn(len: nat, sound: bool) returns (got: seq<byte>)
      requires Valid() && mode == Reading && Good(err) && !seek
      modifies this, out
      ensures Valid() && mode == Reading && !seek
      ensures if Good(err) then got == Slice(data, old(pos), len) && pos == old(pos) + |got| else got == []
      ensures sound || len <= old(have) ==> Good(err)
      ensures Good(err) ==> past == (old(past) || |got| < len)
    {
      hide Positioned, Buffered;
      got := [];
      var left := len;
      while left != 0
        invariant Valid() && mode == Reading && Good(err) && !seek
        invariant 0 <= left && |got| + left == len && pos == old(pos) + |got|
        invariant |got| > 0 ==> pos <= |data| && got == data[old(pos)..pos]
        invariant past == old(past) && (len <= old(have) ==> left <= have)
        decreases left, if have > 0 then 0 else if AtEnd() then 1 else if how == Look then 2 else 3
      {
        var n := if left > 0xffff_ffff then 0xffff_ffff else left;
        if have == 0 && AtEnd() {
          ReadPast();
          break;
        } else if have == 0 && (how == Look || n < 2 * size) {
          var ok := Fetch(sound);
          if !ok {
            return [];
          }
        } else {
          var chunk, ok := Take(n, sound);
          if !ok {
            return [];
          }
          left := left - |chunk|;
          got := got + chunk;
        }
      }
      EndOfInput();
    }

    /** Up to n bytes, from the output buffer or, if there are none, straight from the input; or an error. */
    method Take(n: nat, sound: bool) returns (chunk: seq<byte>, ok: bool)
      requires Valid() && mode == Reading && Good(err) && !seek && n > 0 && (have == 0 ==> how != Look)
      modifies this
      ensures Valid() && mode == Reading && !seek && ok == Good(err)
      ensures past == old(past) && (sound || old(have) > 0 ==> ok)
      ensures old(have) > 0 ==> have == old(have) - |chunk|
      ensures ok ==> |chunk| <= n && pos == old(pos) + |chunk|
      ensures ok && |chunk| == 0 ==> have == 0 == old(have) && (AtEnd() || (how == Look && old(how) != Look))
      ensures ok && |chunk| > 0 ==> pos <= |data| && chunk == data[old(pos)..pos]
    {
      hide Positioned, Buffered;
      chunk, ok := [], true;
      if have > 0 {
        chunk := TakeOutput(n);
        return;
      }
      var fails := *;
      if fails && !sound {
        Fail();
        ok := false;
      } else if how == Copy {
        chunk := TakeCopy(n);
      } else {
        chunk := TakeDecompressed(n);
      }
    }

    /**
     * gz_read: unless there is an error, exactly the stream from the current position on, up to len bytes or the end
     * of the stream. The position moves on by as much; a position past the end of the stream may come back to it.
     * There is no error as long as the input is sound.
     */
    method Read(len: nat, sound: bool) returns (got: seq<byte>)
      requires Valid() && mode == Reading && Good(err)
      modifies this, out
      ensures Valid() && mode == Reading
      ensures Good(err) ==> got == Slice(data, old(Tell()), len)
      ensures Good(err) && old(Tell()) <= |data| ==> Tell() == old(Tell()) + |got|
      ensures Good(err) && old(Tell()) > |data| ==> Tell() == if len == 0 || !old(seek) then old(Tell()) else |data|
      ensures sound ==> Good(err)
      ensures !Good(err) ==> got == [] && len > 0
      ensures Good(err) ==> past == (old(past) || |got| < len)
      ensures if len == 0 then seek == old(seek) && skip == old(skip) else !seek
    {
      hide Buffered;
      if len == 0 {
        return [];
      }
      if seek {
        Forget();
        var ok := SkipAhead(skip, sound);
        if !ok {
          return [];
        }
      }
      got := ReadOn(len, sound);
    }

    /** Once all input has been used, there is no more of the stream. */
    lemma EndOfInput()
      requires Valid() && mode == Reading && Good(err)
      ensures AtEnd() ==> pos + have >= |data|
    {
    }

    /** How far the position that is told is ahead of the one that has been reached. */
    function Pending(): int
      reads this
    {
      if seek then skip else 0
    }

    /** A run of seeks and reads on a file opened for reading. */
    method Play(calls: seq<Call>, ghost reach: nat) returns (answers: seq<Answer>)
      requires Valid() && mode == Reading && Good(err)
      requires Tell() <= reach && |data| <= reach && Representable(calls, reach)
      modifies this, out
      ensures Valid() && mode == Reading
      ensures Follows(data, start, old(Tell()), old(Pending()), calls, answers)
      decreases |calls|
    {
      hide Positioned, Buffered;
      if |calls| == 0 {
        return [];
      }
      var answer := Answer.Broken;
      match calls[0] {
        case SeekTo(to, whence, works) =>
          var ret := Seek(to, whence, works);
          answer := Moved(ret, Tell(), Pending());
        case ReadBytes(len, sound) =>
          var got := Read(len, sound);
          if !Good(err) {
            return [Broken];
          }
          answer := Delivered(got, Tell(), Pending());
      }
      var rest := Play(calls[1..], NextReach(calls[0], reach));
      answers := [answer] + rest;
    }
  }

  // ---- A single cursor ----

  datatype Call = SeekTo(to: i64, whence: Whence, works: bool) | ReadBytes(len: nat, sound: bool)

  /**
   * What a call gives, the position that is told after it, and how much of that is a pending request; an error of the
   * input ends the run.
   */
  datatype Answer =
    | Moved(ret: int, tell: int, pending: int)
    | Delivered(bytes: seq<byte>, tell: int, pending: int)
    | Broken

  /** How far the position can be after a call if it was at most reach before. */
  function NextReach(call: Call, reach: nat): nat
  {
    match call
    case SeekTo(to, _, _) => var t: int := to; reach + if t < 0 then -t else t
    case ReadBytes(_, _) => reach
  }

  /** All positions that the calls can ask for fit the 64-bit offset type. */
  predicate Representable(calls: seq<Call>, reach: nat)
    decreases |calls|
  {
    if |calls| == 0 then true
    else NextReach(calls[0], reach) < TWO_63 && Representable(calls[1..], NextReach(calls[0], reach))
  }

  /**
   * The answers are those of a single cursor at c in the stream, of which p is a request that is still pending. A seek
   * moves the cursor to its target. It fails only for a whence that is not supported, which changes nothing, or for a
   * target before the start, or where the file descriptor cannot be moved, and then the pending request is dropped.
   * A read gives the stream from the cursor on and moves it by as much; past the end of the stream it gives nothing,
   * and a cursor that is there by a pending request comes back to the end. An error, which ends the run, is only
   * possible in a read of at least one byte whose input is not sound.
   */
  ghost predicate Follows(data: seq<byte>, start: int, c: int, p: int, calls: seq<Call>, answers: seq<Answer>)
    decreases |calls|
  {
    if |calls| == 0 then |answers| == 0 else
    && 0 <= p <= c && |answers| > 0
    && match (calls[0], answers[0])
       case (SeekTo(to, whence, works), Moved(ret, tell, pending)) =>
         var target := to + if whence == SeekSet then 0 else c;
         && (whence == SeekEnd ==> ret == -1 && tell == c && pending == p)
         && (whence != SeekEnd && target < 0 ==> ret == -1)
         && (works && whence != SeekEnd && 0 <= target && start + target < TWO_63 ==> ret != -1)
         && (ret == -1 && whence != SeekEnd ==> tell == c - p && pending == 0)
         && (ret != -1 ==> ret == tell == target)
         && Follows(data, start, tell, pending, calls[1..], answers[1..])
       case (ReadBytes(len, sound), Delivered(bytes, tell, pending)) =>
         && bytes == Slice(data, c, len)
         && tell == (if len > 0 && p > 0 && c > |data| then |data| else c + |bytes|)
         && pending == (if len == 0 then p else 0)
         && Follows(data, start, tell, pending, calls[1..], answers[1..])
       case (ReadBytes(len, sound), Broken) => len > 0 && !sound && |answers| == 1
       case _ => false
  }

  /**
   * A failed seek need not leave the position alone: in an empty compressed file, seeking to 10 leaves a request, and
   * seeking 11 back from there fails and drops it.
   */
  method FailedSeekMoves() returns (first: int, ret: int, told: int)
    ensures first == 10 && ret == -1 && told == 0
  {
    var g := new GzState([], false, 0, 1);
    var r := g.Seek(10, SeekSet, true);
    first := g.Tell();
    r := g.Seek(-11, SeekCur, true);
    ret, told := r, g.Tell();
  }
}
