/**
 * The replayable request body of reuseable_reader.go.
 *
 * The reader holds two byte buffers. Reading takes bytes from the front of
 * `readBuf` and appends them to `backBuf` (the tee); a read that finds
 * `readBuf` empty reports end-of-data and moves `backBuf` back into
 * `readBuf`, so the body can be read again from the start.
 */
module Reader {

  newtype byte = b: int | 0 <= b < 256

  function Min(a: nat, b: nat): (m: nat)
    ensures m <= a && m <= b && (m == a || m == b)
  {
    if a <= b then a else b
  }

  class ReusableReader {
    /** The bytes not yet read. */
    var readBuf: seq<byte>
    /** The bytes read since the last reset, in order. */
    var backBuf: seq<byte>
    /** The body as it was captured from the wrapped reader. */
    ghost var data: seq<byte>

    /** The bytes read so far followed by the unread ones are the whole body. */
    ghost predicate Valid()
      reads this
    {
      backBuf + readBuf == data
    }

    /** `ReusableReader(r)`: the whole content of `r` is captured; nothing is read yet. */
    constructor (source: seq<byte>)
      ensures data == source
      ensures readBuf == source && backBuf == []
      ensures Valid()
    {
      readBuf := source;
      backBuf := [];
      data := source;
    }

    /**
     * `Read(p)`: the tee over `readBuf`. With bytes left, the first
     * `min(len(p), len(readBuf))` of them are copied into `p` and moved to
     * `backBuf`. With none left, a non-empty `p` gets end-of-data and the
     * reader is reset; an empty `p` gets nothing and no error.
     */
    method Read(p: array<byte>) returns (n: nat, eof: bool)
      requires Valid()
      modifies this, p
      ensures Valid() && data == old(data)
      ensures n <= p.Length
      ensures old(readBuf) != [] ==>
        !eof && n == Min(p.Length, |old(readBuf)|) &&
        p[..n] == old(readBuf)[..n] && p[n..] == old(p[n..]) &&
        readBuf == old(readBuf)[n..] && backBuf == old(backBuf) + old(readBuf)[..n]
      ensures old(readBuf) == [] ==> n == 0 && eof == (p.Length > 0) && p[..] == old(p[..])
      ensures old(readBuf) == [] && eof ==> readBuf == data && backBuf == []
      ensures old(readBuf) == [] && !eof ==> readBuf == old(readBuf) && backBuf == old(backBuf)
    {
      if readBuf == [] {
        if p.Length == 0 {
          return 0, false;
        }
        Reset();
        return 0, true;
      }
      n := Min(p.Length, |readBuf|);
      forall i | 0 <= i < n {
        p[i] := readBuf[i];
      }
      backBuf := backBuf + readBuf[..n];
      readBuf := readBuf[n..];
      assert old(readBuf) == old(readBuf)[..n] + readBuf;
      eof := false;
    }

    /**
     * `reset`: everything in `backBuf` is appended to `readBuf` and
     * `backBuf` is emptied. Called once the body is exhausted, it restores
     * the whole body.
     */
    method Reset()
      modifies this
      ensures readBuf == old(readBuf) + old(backBuf) && backBuf == []
      ensures data == old(data)
      ensures old(Valid()) && old(readBuf) == [] ==> Valid() && readBuf == data
    {
      readBuf := readBuf + backBuf;
      backBuf := [];
    }
  }

  /** Read the whole body, reset, read it again: both reads return the body. */
  method ReplayAfterReset(source: seq<byte>) returns (first: seq<byte>, second: seq<byte>)
    ensures first == source && second == source
  {
    var r := new ReusableReader(source);
    var p := new byte[|source|];
    var n, eof := r.Read(p);
    first := p[..n];
    r.Reset();
    n, eof := r.Read(p);
    second := p[..n];
  }

  /**
   * Read the whole body, then read until end-of-data: the end-of-data read
   * resets the reader by itself, so a third read returns the body again.
   */
  method ReplayAfterEof(source: seq<byte>) returns (first: seq<byte>, eof: bool, second: seq<byte>)
    ensures first == source && second == source
    ensures eof <==> source != []
  {
    var r := new ReusableReader(source);
    var p := new byte[|source|];
    var n;
    n, eof := r.Read(p);
    first := p[..n];
    n, eof := r.Read(p);
    var n2, eof2 := r.Read(p);
    second := p[..n2];
  }
}
