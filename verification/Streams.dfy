/** Buffered output to one stream, under any sequence of short writes and errors of the descriptor. */
module Streams {
  import opened Words

  const NEWLINE: byte := 10

  /** What one `write` does: fail, or take at most this many bytes. */
  datatype Outcome = Fails | Takes(count: nat)

  predicate NoErrors(script: seq<Outcome>) { forall i :: 0 <= i < |script| ==> script[i].Takes? }

  /** The first newline, if there is one: `memchr`. */
  method FindNewline(data: seq<byte>, count: nat) returns (i: nat)
    requires count <= |data|
    ensures i <= count && NEWLINE !in data[..i]
    ensures i < count ==> data[i] == NEWLINE
  {
    i := 0;
    while i < count && data[i] != NEWLINE
      invariant i <= count && NEWLINE !in data[..i]
    {
      i := i + 1;
    }
  }

  /** Taking a prefix off the pending bytes loses nothing. */
  lemma TakeOff(delivered: seq<byte>, pending: seq<byte>, n: nat)
    requires n <= |pending|
    ensures delivered + pending[..n] + pending[n..] == delivered + pending
  {
  }

  /** The next stretch of the data. */
  lemma NextStretch(accepted: seq<byte>, data: seq<byte>, i: nat, n: nat)
    requires i + n <= |data|
    ensures accepted + data[..i] + data[i..][..n] == accepted + data[..i + n]
  {
    assert data[..i + n] == data[..i] + data[i..][..n];
  }

  function Least(a: nat, b: nat): nat { if a < b then a else b }

  class Stream {
    const buffered: bool
    const lineBuffered: bool
    const buffer: array<byte>
    var bufStart: nat
    var bufCur: nat
    var readBuffer: bool
    var err: bool
    var nunget: nat
    /** The outcomes of the coming writes; after them, writes take everything. */
    var script: seq<Outcome>
    /** The bytes that the descriptor has taken. */
    ghost var delivered: seq<byte>

    ghost predicate Valid()
      reads `bufStart, `bufCur
    {
      buffer.Length > 0 && bufStart <= bufCur <= buffer.Length
    }

    /** The bytes in the buffer that are still to be written. */
    function Pending(): seq<byte>
      reads `bufStart, `bufCur, `readBuffer, buffer
      requires Valid()
    {
      if !buffered || readBuffer then [] else buffer[bufStart..bufCur]
    }

    /** Everything that has been accepted for writing, in order. */
    ghost function Accepted(): seq<byte>
      reads `bufStart, `bufCur, `readBuffer, `delivered, buffer
      requires Valid()
    {
      delivered + Pending()
    }

    constructor (buffered: bool, lineBuffered: bool, size: nat, script: seq<Outcome>)
      requires size > 0
      ensures Valid() && Accepted() == [] && delivered == [] && this.script == script
      ensures this.buffered == buffered && this.lineBuffered == lineBuffered && fresh(buffer)
    {
      this.buffered, this.lineBuffered := buffered, lineBuffered;
      buffer := new byte[size](i => 0);
      bufStart, bufCur, nunget := 0, 0, 0;
      readBuffer, err := false, false;
      this.script := script;
      delivered := [];
    }

    /** Of data, as many bytes as there is room for, but no more than a line if lines are to be flushed. */
    ghost predicate Fills(data: seq<byte>, room: nat, count: nat)
      requires room <= |data|
    {
      && 0 < count <= room
      && if lineBuffered && NEWLINE in data[..room] then data[count - 1] == NEWLINE && NEWLINE !in data[..count - 1]
         else count == room
    }

    /** The system call: -1, or the number of bytes taken. */
    method Write(data: seq<byte>) returns (actual: int)
      modifies this`script, this`delivered
      ensures -1 <= actual <= |data|
      ensures delivered == old(delivered) + (if actual > 0 then data[..actual] else [])
      ensures script == if old(script) == [] then [] else old(script)[1..]
      ensures old(script) == [] ==> actual == |data|
      ensures NoErrors(old(script)) ==> actual >= 0 && NoErrors(script)
    {
      if script == [] {
        delivered := delivered + data;
        assert data[..|data|] == data;
        return |data|;
      }
      var outcome := script[0];
      script := script[1..];
      match outcome {
        case Fails => actual := -1;
        case Takes(count) =>
          actual := if count < |data| then count else |data|;
          delivered := delivered + data[..actual];
      }
    }

    /** The retry loop over short writes (lines 11-20). */
    method Drain() returns (failed: bool)
      requires Valid() && buffered && !readBuffer
      modifies this`bufStart, this`err, this`script, this`delivered
      ensures Valid() && bufCur == old(bufCur)
      ensures delivered + buffer[bufStart..bufCur] == old(delivered + buffer[bufStart..bufCur])
      ensures if failed then err else bufStart == bufCur && err == old(err)
      ensures NoErrors(old(script)) ==> !failed && NoErrors(script)
    {
      hide NoErrors;
      while bufStart != bufCur
        invariant Valid() && err == old(err)
        invariant delivered + buffer[bufStart..bufCur] == old(delivered + buffer[bufStart..bufCur])
        invariant NoErrors(old(script)) ==> NoErrors(script)
        decreases bufCur - bufStart, |script|
      {
        var pending := buffer[bufStart..bufCur];
        ghost var before := delivered;
        var actual := Write(pending);
        if actual < 0 {
          err := true;
          return true;
        }
        TakeOff(before, pending, actual);
        bufStart := bufStart + actual;
        assert buffer[bufStart..bufCur] == pending[actual..];
      }
      failed := false;
    }

    /** `do_flush` (fflush.c:8-34) */
    method Flush() returns (result: int)
      requires Valid()
      modifies this`bufStart, this`bufCur, this`err, this`nunget, this`script, this`delivered
      ensures Valid() && Accepted() == old(Accepted())
      ensures result == 0 || result == -1
      ensures result == 0 ==> Pending() == [] && err == old(err) && (buffered ==> bufStart == bufCur == 0)
      ensures result == -1 ==> err && bufCur == old(bufCur)
      ensures nunget == if result == 0 then 0 else old(nunget)
      ensures old(Pending()) == [] ==> result == 0 && script == old(script)
      ensures NoErrors(old(script)) ==> result == 0 && NoErrors(script)
    {
      hide NoErrors;
      if buffered {
        if !readBuffer && bufStart != bufCur {
          var failed := Drain();
          if failed { return -1; }
        }
        bufStart, bufCur := 0, 0;
      }
      nunget := 0;
      result := 0;
    }

    /** `memcpy` to the end of the buffer */
    method Append(data: seq<byte>, count: nat)
      requires Valid() && buffered && !readBuffer && count <= |data| && bufCur + count <= buffer.Length
      modifies this`bufCur, buffer
      ensures Valid() && Accepted() == old(Accepted()) + data[..count]
      ensures Pending() == old(Pending()) + data[..count]
    {
      var at := bufCur;
      ghost var before := buffer[..];
      var i := 0;
      while i < count
        invariant i <= count
        invariant buffer[..at] == before[..at] && buffer[at..at + i] == data[..i]
      {
        buffer[at + i] := data[i];
        i := i + 1;
      }
      bufCur := at + count;
      assert buffer[bufStart..bufCur] == before[bufStart..at] + buffer[at..at + count];
    }

    /** `do_write` (fwrite.c:16-52) */
    method DoWrite(data: seq<byte>) returns (count: int)
      requires Valid() && data != []
      modifies this`bufStart, this`bufCur, this`readBuffer, this`err, this`nunget, this`script, this`delivered, buffer
      ensures Valid() && -1 <= count <= |data|
      ensures Accepted() == old(Accepted()) + (if count > 0 then data[..count] else [])
      ensures count == 0 ==> |script| < |old(script)|
      ensures err == (old(err) || (buffered && count < 0))
      // where there is room, what fits is kept, up to the end of a line
      ensures buffered && count >= 0 ==>
                var space := if old(readBuffer || bufCur == buffer.Length) then buffer.Length
                             else buffer.Length - old(bufCur);
                Fills(data, Least(space, |data|), count)
      ensures buffered && (old(readBuffer) || old(bufCur) < buffer.Length) ==> count > 0
      ensures buffered && (old(readBuffer) || old(bufCur) < buffer.Length) && !(lineBuffered && NEWLINE in data) ==>
                delivered == old(delivered) && script == old(script)
      ensures NoErrors(old(script)) ==> count >= 0 && NoErrors(script)
      ensures NoErrors(old(script)) && lineBuffered && NEWLINE !in old(Pending()) ==> NEWLINE !in Pending()
    {
      hide NoErrors;
      if !buffered {
        count := Write(data);
        return;
      }
      if readBuffer {
        readBuffer := false;
        bufCur, bufStart := 0, 0;
        assert Pending() == [];
      } else if bufCur == buffer.Length {
        var failed := Flush();
        if failed != 0 { return -1; }
      }
      assert Accepted() == old(Accepted());
      assert NEWLINE !in old(Pending()) ==> NEWLINE !in Pending();
      hide Accepted, Pending, Fills;
      var avail := buffer.Length - bufCur;
      count := Accept(data, if |data| > avail then avail else |data|);
    }

    /** The part of `do_write` that fills the buffer (lines 32-51). */
    method Accept(data: seq<byte>, room: nat) returns (count: nat)
      requires Valid() && buffered && !readBuffer && 0 < room <= |data| && bufCur + room <= buffer.Length
      modifies this`bufStart, this`bufCur, this`err, this`nunget, this`script, this`delivered, buffer
      ensures Valid() && 0 < count <= |data| && Accepted() == old(Accepted()) + data[..count]
      ensures err == old(err) && Fills(data, room, count)
      ensures !(lineBuffered && NEWLINE in data) ==> delivered == old(delivered) && script == old(script)
      ensures NoErrors(old(script)) ==> NoErrors(script)
      ensures NoErrors(old(script)) && lineBuffered && NEWLINE !in old(Pending()) ==> NEWLINE !in Pending()
    {
      hide NoErrors, Accepted, Pending;
      if lineBuffered {
        var end := FindNewline(data, room);
        if end < room {
          Append(data, end + 1);
          var origErr := err;
          var ignored := Flush();
          err := origErr;
          return end + 1;
        }
      }
      Append(data, room);
      count := room;
    }

    /** `write_flat` (fwrite.c:54-70) */
    method WriteFlat(data: seq<byte>) returns (ret: nat)
      requires Valid()
      modifies this`bufStart, this`bufCur, this`readBuffer, this`err, this`nunget, this`script, this`delivered, buffer
      ensures Valid() && ret <= |data|
      ensures Accepted() == old(Accepted()) + data[..ret]
      ensures err == (old(err) || ret < |data|)
      ensures NoErrors(old(script)) ==> ret == |data| && NoErrors(script)
      ensures NoErrors(old(script)) && lineBuffered && NEWLINE !in old(Pending()) ==> NEWLINE !in Pending()
    {
      ret := 0;
      hide *;
      while ret < |data|
        invariant Valid() && ret <= |data| && Accepted() == old(Accepted()) + data[..ret] && err == old(err)
        invariant NoErrors(old(script)) ==> NoErrors(script)
        invariant NoErrors(old(script)) && lineBuffered && NEWLINE !in old(Pending()) ==> NEWLINE !in Pending()
        decreases |data| - ret, |script|
      {
        var rest := data[ret..];
        assert rest != [];
        var actual := DoWrite(rest);
        if actual < 0 {
          err := true;
          break;
        }
        NextStretch(old(Accepted()), data, ret, actual);
        ret := ret + actual;
      }
    }

    /** `fwrite` (fwrite.c:72-74): the number of whole items accepted. */
    method FWrite(data: seq<byte>, size: nat, nmemb: nat) returns (items: nat)
      requires Valid() && size > 0 && |data| == size * nmemb
      modifies this`bufStart, this`bufCur, this`readBuffer, this`err, this`nunget, this`script, this`delivered, buffer
      ensures Valid() && items <= nmemb
      ensures exists ret: nat :: ret <= |data| && ret / size == items && Accepted() == old(Accepted()) + data[..ret]
                && err == (old(err) || ret < |data|)
      ensures NoErrors(old(script)) ==> items == nmemb && Accepted() == old(Accepted()) + data
    {
      hide *;
      var ret := WriteFlat(data);
      DivLe(ret, |data|, size);
      DivMulCancel(nmemb, size);
      assert data[..|data|] == data;
      DivNat(ret, size);
      items := ret / size;
    }
  }
}
