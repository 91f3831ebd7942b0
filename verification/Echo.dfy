/** The echo handler and the asynchronous server as objects. */
module EchoServer {
  import opened Text
  import opened EchoSpec

  /** One connection together with its context in the handler's registry; the last three
      fields are history. */
  class EchoConnection {
    var isOpen: bool
    var interest: set<Event>
    var buff: string
    var readPos: nat
    var writePos: nat
    var received: string
    var sent: string
    var called: bool

    function Value(): Echo
      reads this
    {
      Echo(isOpen, interest, buff, readPos, writePos, received, sent, called)
    }

    constructor (c: Echo)
      ensures Value() == c
    {
      isOpen, interest, buff, readPos, writePos := c.isOpen, c.interest, c.buff, c.readPos, c.writePos;
      received, sent, called := c.received, c.sent, c.called;
    }

    /** Bytes arrive at `readPos`; a full buffer is doubled. */
    method Store(got: string)
      requires WellFormed(Value()) && readPos + |got| <= |buff|
      modifies this`buff, this`received, this`readPos
      ensures Value() == Append(old(Value()), got)
    {
      buff := buff[..readPos] + got + buff[readPos + |got|..];
      received := received + got;
      readPos := readPos + |got|;
      if |buff| == readPos {
        buff := buff + Zeros(|buff|);
      }
    }

    method HandleRead(ins: seq<ReadResult>) returns (threw: bool)
      requires WellFormed(Value())
      modifies this
      ensures Outcome(Value(), threw) == EchoSpec.HandleRead(old(Value()), ins)
    {
      hide Append;
      var i := 0;
      while true
        invariant i <= |ins| && WellFormed(Value())
        invariant ReadLoop(Value(), ins[i..]) == ReadLoop(old(Value()), ins)
        decreases |ins| - i
      {
        if i == |ins| { break; }
        assert ins[i..][0] == ins[i] && ins[i..][1..] == ins[i + 1..];
        match ins[i] {
          case Data(bytes) =>
            var got := bytes[..Min(|bytes|, |buff| - readPos)];
            if got == "" { break; }
            Store(got);
          case Again => break;
          case Eof(closed) =>
            if !closed {
              return true;
            }
            isOpen := false;
            break;
          case ReadFailed =>
            return true;
        }
        i := i + 1;
      }
      if writePos < readPos {
        interest := interest + {Out};
      }
      return false;
    }

    method HandleWrite(outs: seq<WriteResult>) returns (threw: bool)
      requires WellFormed(Value())
      modifies this
      ensures Outcome(Value(), threw) == EchoSpec.HandleWrite(old(Value()), outs)
    {
      var i := 0;
      while writePos < readPos
        invariant i <= |outs| && WellFormed(Value())
        invariant WriteLoop(Value(), outs[i..]) == WriteLoop(old(Value()), outs)
        decreases |outs| - i
      {
        if !isOpen {
          return true;
        }
        if i == |outs| { break; }
        assert outs[i..][0] == outs[i] && outs[i..][1..] == outs[i + 1..];
        match outs[i] {
          case Took(count) =>
            var n := Min(count, readPos - writePos);
            if n == 0 { break; }
            sent := sent + buff[writePos..writePos + n];
            writePos := writePos + n;
          case WriteFailed =>
            return true;
        }
        i := i + 1;
      }
      if writePos == readPos {
        interest := interest - {Out};
      }
      return false;
    }

    method Call(e: Report) returns (threw: bool)
      requires WellFormed(Value())
      modifies this
      ensures Outcome(Value(), threw) == EchoSpec.Call(old(Value()), e)
    {
      hide ReadLoop, WriteLoop;
      called := true;
      if Err in e.events {
        if e.errClosed {
          isOpen := false;
        }
        return !e.errClosed;
      }
      threw := false;
      if In in e.events {
        threw := HandleRead(e.ins);
        if threw { return; }
      }
      if Out in e.events {
        threw := HandleWrite(e.outs);
        if threw { return; }
      }
      if writePos == readPos {
        interest := interest - {Out};
      }
    }
  }

  class AsyncServer {
    var connections: map<int, Echo>
    var epoll: map<int, set<Event>>
    var dead: bool

    function Value(): Server
      reads this
    {
      Server(connections, epoll, dead)
    }

    constructor ()
      ensures Value() == LISTENING
    {
      connections, epoll, dead := map[], map[], false;
    }

    method RegisterConnection(fd: int, registered: bool)
      modifies this
      ensures Value() == Register(old(Value()), fd, registered)
    {
      if !registered {
        dead := true;
        return;
      }
      epoll := epoll[fd := ACCEPTED.interest];
      connections := connections[fd := ACCEPTED];
    }

    /** `closeConnection` from the catch clause around `HandleEvent`. */
    method CloseConnection(fd: int, c: Echo, cleanup: bool)
      modifies this
      ensures Value() == CloseAfterThrow(old(Value()), fd, c, cleanup)
    {
      connections := connections - {fd};
      if !c.isOpen || cleanup {
        epoll := epoll - {fd};
      }
      if !c.isOpen || !cleanup {
        dead := true;
      }
    }

    method HandleEvent(fd: int, e: Report)
      requires fd in connections && WellFormed(connections[fd])
      modifies this
      ensures Value() == EchoSpec.HandleEvent(old(Value()), fd, e)
    {
      hide EchoSpec.Call;
      var interestsBefore := connections[fd].interest;
      var connection := new EchoConnection(connections[fd]);
      if connection.interest * e.events != {} || e.events * {Hup, RdHup, Err} != {} {
        var threw := connection.Call(e);
        if threw {
          CloseConnection(fd, connection.Value(), e.cleanup);
          return;
        }
      }
      if !connection.isOpen {
        connections := connections - {fd};
        epoll := epoll - {fd};
      } else {
        if connection.interest != interestsBefore {
          if !e.modifyOk {
            CloseConnection(fd, connection.Value(), e.cleanup);
            return;
          }
          epoll := epoll[fd := connection.interest];
        }
        connections := connections[fd := connection.Value()];
      }
    }
  }
}
