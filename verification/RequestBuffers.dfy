/** The splice pipe and the two request buffers as the source writes them. */
module RequestBuffers {
  import opened Prelude
  import opened Wire
  import opened Framing

  /** How much a system call moves: at most what was asked for and what is there, and something if
      there is anything to move. */
  method Moved(asked: nat, there: nat) returns (amount: nat)
    ensures amount <= asked && amount <= there
    ensures asked > 0 && there > 0 ==> amount > 0
  {
    var most: nat := if asked <= there then asked else there;
    amount :| 0 <= amount <= most && (most > 0 ==> amount > 0);
  }

  class Pipe {
    /** The tracked number of bytes in the pipe. */
    var len: nat
    /** The bytes actually in the pipe. */
    var data: seq<byte>

    ghost predicate Valid()
      reads this
    {
      len == |data|
    }

    constructor ()
      ensures Valid() && data == []
    {
      len := 0;
      data := [];
    }

    method SpliceTo(n: nat) returns (out: seq<byte>)
      requires Valid()
      modifies this
      ensures Valid()
      ensures |out| <= n && out + data == old(data)
    {
      var amount := Moved(n, |data|);
      out := data[..amount];
      data := data[amount..];
      len := SaturatingSub(len, amount);
    }

    /** Also what writing to the pipe does. */
    method SpliceFrom(source: seq<byte>, n: nat) returns (amount: nat)
      requires Valid()
      modifies this
      ensures Valid()
      ensures amount <= Min(n, |source|) && data == old(data) + source[..amount]
    {
      amount := Moved(n, |source|);
      data := data + source[..amount];
      len := len + amount;
    }

    method Read(n: nat) returns (bytes: seq<byte>)
      requires Valid()
      modifies this
      ensures Valid()
      ensures |bytes| <= n && bytes + data == old(data)
      ensures n > 0 && old(data) != [] ==> bytes != []
    {
      var amount := Moved(n, |data|);
      bytes := data[..amount];
      data := data[amount..];
      len := SaturatingSub(len, amount);
    }

    /** Reads until the destination is full or the pipe has run dry, however the system portions
        the single reads. */
    method ReadExactly(n: nat) returns (bytes: seq<byte>, whole: bool)
      requires Valid()
      modifies this
      ensures Valid()
      ensures (bytes, data, whole) == ReadExact(old(data), n)
    {
      var got := [];
      while |got| < n && data != []
        invariant Valid() && |got| <= n
        invariant got + data == old(data)
        decreases n - |got|
      {
        var more := Read(n - |got|);
        got := got + more;
      }
      whole := |got| == n;
      bytes := got + seq(n - |got|, _ => 0);
      if whole {
        assert bytes == got == old(data)[..n];
        assert data == old(data)[n..];
      } else {
        assert got == old(data);
      }
    }

    /** Splicing from this pipe into another: what leaves one arrives at the end of the other, and
        both lengths stay true. */
    method SpliceRead(dst: Pipe, n: nat) returns (amount: nat)
      requires Valid() && dst.Valid() && dst != this
      modifies this, dst
      ensures Valid() && dst.Valid()
      ensures amount <= Min(n, |old(data)|)
      ensures dst.data == old(dst.data) + old(data)[..amount] && data == old(data)[amount..]
      ensures dst.data + data == old(dst.data) + old(data)
    {
      amount := dst.SpliceFrom(data, n);
      data := data[amount..];
      len := SaturatingSub(len, amount);
    }

    /** Splicing from another pipe into this one. */
    method SpliceWrite(src: Pipe, n: nat) returns (amount: nat)
      requires Valid() && src.Valid() && src != this
      modifies this, src
      ensures Valid() && src.Valid()
      ensures amount <= Min(n, |old(src.data)|)
      ensures data == old(data) + old(src.data)[..amount] && src.data == old(src.data)[amount..]
      ensures data + src.data == old(data) + old(src.data)
    {
      var out := src.SpliceTo(n);
      amount := |out|;
      data := data + out;
      len := len + amount;
    }
  }

  class PipeBuf {
    var header: seq<byte>
    var arg: seq<byte>
    var pipe: Pipe

    function State(): PipeState
      reads this, pipe
    {
      PipeState(header, arg, pipe.len, pipe.data)
    }

    constructor ()
      ensures State() == NewPipeState() && fresh(pipe)
    {
      header := seq(IN_HEADER, _ => 0);
      arg := [];
      pipe := new Pipe();
    }

    method Reset(pipeOk: bool) returns (ready: bool)
      requires PipeOk(State())
      modifies this
      ensures (State(), ready) == PipeReset(old(State()), pipeOk)
      ensures pipe == old(pipe) || fresh(pipe)
    {
      arg := [];
      if pipe.len != 0 {
        if !pipeOk {
          return false;
        }
        pipe := new Pipe();
      }
      return true;
    }

    /** The device hands over a whole message or an error. */
    method TryReceive(read: DeviceRead, pipeOk: bool) returns (r: Result<(), Errno>)
      requires PipeOk(State())
      modifies this, pipe
      ensures PipeOk(State())
      ensures (State(), r) == PipeReceive(old(State()), read, pipeOk)
      ensures r.Ok? ==> read.Message? && header + arg + pipe.data == read.bytes
      ensures pipe == old(pipe) || fresh(pipe)
    {
      PipeReceiveIsolates(State(), read, pipeOk);
      var ready := Reset(pipeOk);
      if !ready {
        return Err(IO);
      }
      if read.DeviceError? {
        return Err(read.errno);
      }
      var n := |read.bytes|;
      pipe.data := pipe.data + read.bytes;
      pipe.len := pipe.len + n;
      if n < IN_HEADER {
        return Err(INVAL);
      }
      var whole;
      header, whole := pipe.ReadExactly(IN_HEADER);
      if n != LenField(header) {
        return Err(INVAL);
      }
      arg, whole := pipe.ReadExactly(ArgLen(header));
      return if whole then Ok(()) else Err(AGAIN);
    }
  }

  class VecBuf {
    var header: seq<byte>
    const arg: array<byte>
    var pos: nat

    function State(): VecState
      reads this, arg
    {
      VecState(header, arg[..], pos)
    }

    constructor (bufsize: nat)
      requires bufsize >= IN_HEADER
      ensures VecOk(State(), bufsize) && pos == 0
    {
      header := seq(IN_HEADER, _ => 0);
      arg := new byte[bufsize - IN_HEADER](_ => 0);
      pos := 0;
    }

    /** The vectored read: first into the header, then into the argument buffer, in place. What the
        message does not reach keeps its old bytes. */
    method TryReceive(read: DeviceRead) returns (r: Result<(), Errno>)
      requires |header| == IN_HEADER
      requires read.Message? ==> |read.bytes| <= IN_HEADER + arg.Length
      modifies this, arg
      ensures (State(), r) == VecReceive(old(State()), read)
    {
      pos := 0;
      if read.DeviceError? {
        return Err(read.errno);
      }
      var n := |read.bytes|;
      var inHeader := Min(n, IN_HEADER);
      header := Overlay(header, read.bytes[..inHeader]);
      var body := read.bytes[inHeader..];
      for k := 0 to |body|
        invariant forall j :: 0 <= j < k ==> arg[j] == body[j]
        invariant forall j :: k <= j < arg.Length ==> arg[j] == old(arg[j])
        invariant header == Overlay(old(header), read.bytes[..inHeader]) && pos == 0
      {
        arg[k] := body[k];
      }
      assert arg[..] == Overlay(old(arg[..]), body);
      if n != LenField(header) {
        return Err(INVAL);
      }
      pos := ArgLen(header);
      return Ok(());
    }
  }
}
