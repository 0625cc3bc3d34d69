/**
 The SSL pump: plaintext from a stream goes through an SSL engine into the bucket of pending
 ciphertext.  The engine is any component that reads and writes through the two bio functions; its
 write takes all of a buffer or nothing.  Ghost fields keep the whole history of each flow.
 */
module SslPump {
  import opened Options
  import opened Bytes

  datatype Failure = NegotiateInProgress | SetupFailed | CommFailed | Other(code: int)

  /** Success is zero; only Error is what SERF_BUCKET_READ_ERROR accepts. */
  datatype Status = Success | Eof | Again | WaitConn | Error(failure: Failure)

  datatype SslError = Syscall | WantRead | WantWrite | Ssl | Unexpected

  /** A call of SSL_write: how much it could have been given, what it was given, and whether it took it. */
  datatype Write = Write(room: nat, data: seq<Byte>, taken: bool)

  /**
   A write after a refused one offers the refused data again: at least all of it if there is room, as
   much as there is room for otherwise.
   */
  predicate Repeats(refused: Write, next: Write) {
    !refused.taken ==>
      if next.room >= |refused.data| then refused.data <= next.data
      else next.data <= refused.data && |next.data| == next.room
  }

  /** Statuses that are no errors are not reported by the handshake. */
  function Reported(status: Status): Status {
    if status.Error? then status else Success
  }

  class SslContext {
    var wantRead: bool
    var cryptStatus: Status
    var fatalErr: Option<Failure>
    var pendingErr: Status
    var renegotiation: bool
    var handshakeDone: bool
    var handshakeFinished: bool

    /** What can still be read from encrypt.stream, encrypt_pending and decrypt.stream. */
    var stream: seq<Byte>
    var pending: seq<Byte>
    var inbound: seq<Byte>

    /** What is unread of the bucket last put back at the front of the stream. */
    var putBack: seq<Byte>

    /** The calls of SSL_write so far. */
    ghost var writes: seq<Write>

    /** How often the stream was read, how often that brought data, how much of it, and the last status. */
    ghost var pulls: nat
    ghost var fed: nat
    ghost var given: nat
    ghost var lastRead: Status

    /** All plaintext put into the stream, and what SSL_write has taken. */
    ghost var queued: seq<Byte>
    ghost var accepted: seq<Byte>

    /** All ciphertext the engine has written, and what has been handed out. */
    ghost var produced: seq<Byte>
    ghost var returned: seq<Byte>

    /** All ciphertext that has arrived, and what the engine has read. */
    ghost var arrived: seq<Byte>
    ghost var consumed: seq<Byte>

    /** All plaintext the engine has decrypted. */
    ghost var decrypted: seq<Byte>

    /** How often the handshake was started explicitly, and how often SSL_read was called. */
    ghost var handshakes: nat
    ghost var lastHandshake: Status
    ghost var sslReads: nat

    /**
     No flow has lost or gained anything, the explicit handshake is started once, and a renegotiation
     is a fatal error.
     */
    ghost predicate Conserved()
      reads this
    {
      && Engaged()
      && handshakes == (if handshakeDone then 1 else 0)
      && queued == accepted + stream
    }

    /** The part of it that the engine can touch. */
    ghost predicate Engaged()
      reads this`produced, this`returned, this`pending, this`arrived, this`consumed, this`inbound
      reads this`renegotiation, this`fatalErr
    {
      && (renegotiation ==> fatalErr.Some?)
      && produced == returned + pending && arrived == consumed + inbound
    }

    /** Data read was written, as often as there was any, and what was refused lies in front. */
    ghost predicate Retried()
      reads this`stream, this`putBack, this`writes, this`fed
    {
      && |writes| == fed
      && putBack <= stream
      && (writes != [] && !writes[|writes| - 1].taken ==> putBack == writes[|writes| - 1].data)
      && Consecutive()
    }

    /** Every write repeats the one before it, if that was refused. */
    ghost predicate Consecutive()
      reads this`writes
    {
      forall k, l | 0 <= k < l < |writes| && l == k + 1 :: Repeats(writes[k], writes[l])
    }

    constructor ()
      ensures Retried() && writes == []
      ensures Conserved() && queued == [] && produced == [] && arrived == [] && decrypted == []
      ensures fatalErr == None && !wantRead && !handshakeDone
    {
      wantRead, renegotiation, handshakeDone, handshakeFinished := false, false, false, false;
      cryptStatus, fatalErr, pendingErr := Success, None, Success;
      stream, pending, inbound, putBack, writes := [], [], [], [], [];
      queued, accepted, produced, returned, arrived, consumed := [], [], [], [], [], [];
      decrypted, handshakes, sslReads, pulls, fed, given := [], 0, 0, 0, 0, 0;
      lastRead, lastHandshake := Success, Success;
    }

    // ----- Buckets -----

    /**
     Reads part of the plaintext; a success brings something, an error nothing, no buffer is empty.
     What was put back is in memory and comes first, as much of it as was asked for.
     */
    method ReadStream(requested: nat) returns (status: Status, vecs: seq<seq<Byte>>)
      requires putBack <= stream
      modifies this`stream, this`putBack
      ensures old(stream) == Flatten(vecs) + stream && |Flatten(vecs)| <= requested
      ensures status.Error? ==> vecs == []
      ensures vecs == [] <==> Flatten(vecs) == []
      ensures status == Success && requested > 0 ==> vecs != []
      ensures !status.Error? ==> |Flatten(vecs)| >= requested || |Flatten(vecs)| >= |old(putBack)|
      ensures old(putBack) <= Flatten(vecs) + putBack && putBack <= stream
      ensures |putBack| <= |old(putBack)|
    {
      status := *;
      vecs := *;
      if status.Error? || !(Flatten(vecs) <= stream && 0 < |Flatten(vecs)| <= requested) {
        vecs := [];
      }
      var least := if requested < |putBack| then requested else |putBack|;
      if !status.Error? && |Flatten(vecs)| < least {
        vecs := [stream[..least]];
        assert vecs[..0] == [];
      }
      if status == Success && vecs == [] {
        status := Again;
      }
      var n := |Flatten(vecs)|;
      UnreadPart(stream, Flatten(vecs), putBack);
      putBack := if n < |putBack| then putBack[n..] else [];
      stream := stream[n..];
    }

    /** Reads ciphertext in memory: the end is reported only when nothing is left. */
    method ReadPending(requested: nat) returns (status: Status, vecs: seq<seq<Byte>>)
      modifies this`pending
      ensures old(pending) == Flatten(vecs) + pending && |Flatten(vecs)| <= requested
      ensures status == Success || status == Eof
      ensures status == Eof ==> pending == []
      ensures status == Success && requested > 0 ==> |Flatten(vecs)| > 0
    {
      vecs := *;
      if !(Flatten(vecs) <= pending && |Flatten(vecs)| <= requested) || (requested > 0 && Flatten(vecs) == []) {
        vecs := [pending[..if requested < |pending| then requested else |pending|]];
        assert vecs[..0] == [];
      }
      status := if Flatten(vecs) == pending then Eof else Success;
      pending := pending[|Flatten(vecs)|..];
    }

    method Combine(vecs: seq<seq<Byte>>) returns (data: seq<Byte>)
      ensures data == Flatten(vecs)
    {
      data := [];
      for i := 0 to |vecs|
        invariant data == Flatten(vecs[..i])
      {
        assert vecs[..i + 1][..i] == vecs[..i];
        data := data + vecs[i];
      }
      assert vecs[..|vecs|] == vecs;
    }

    // ----- The functions the engine calls -----

    method BioBucketRead(inlen: nat) returns (n: int, data: seq<Byte>, ghost status: Status)
      modifies this`wantRead, this`cryptStatus, this`inbound, this`consumed
      ensures old(inbound) == data + inbound && consumed == old(consumed) + data
      ensures n == if data == [] then -1 else |data|
      ensures |data| <= inlen
      ensures renegotiation ==> data == [] && cryptStatus == Error(NegotiateInProgress) && wantRead == old(wantRead)
      ensures !renegotiation ==> !wantRead && cryptStatus == status && (status.Error? ==> data == [])
    {
      data := [];
      if renegotiation {
        cryptStatus := Error(NegotiateInProgress);
        return -1, [], cryptStatus;
      }
      var bucketStatus: Status := *;
      status := bucketStatus;
      var len: int := *;
      if bucketStatus.Error? || len < 0 || len > inlen || len > |inbound| {
        len := 0;
      }
      data, inbound := inbound[..len], inbound[len..];
      consumed := consumed + data;
      cryptStatus := bucketStatus;
      wantRead := false;
      if bucketStatus.Error? {
        return -1, [], status;
      }
      if len == 0 {
        return -1, [], status;
      }
      return len, data, status;
    }

    method BioBucketWrite(data: seq<Byte>) returns (n: int)
      modifies this`cryptStatus, this`pending, this`produced
      ensures n == if renegotiation then -1 else |data|
      ensures cryptStatus == if renegotiation then Error(NegotiateInProgress) else Success
      ensures pending == old(pending) + if renegotiation then [] else data
      ensures produced == old(produced) + if renegotiation then [] else data
    {
      if renegotiation {
        cryptStatus := Error(NegotiateInProgress);
        return -1;
      }
      cryptStatus := Success;
      pending := pending + data;
      produced := produced + data;
      return |data|;
    }

    /** The info callback, when the server asks to renegotiate. */
    method DetectRenegotiate()
      modifies this`renegotiation, this`fatalErr
      ensures renegotiation && fatalErr == Some(NegotiateInProgress)
    {
      renegotiation := true;
      fatalErr := Some(NegotiateInProgress);
    }

    /** Whatever the engine does: any bio calls and callbacks, in any order. */
    method RunEngine() returns (ghost read: seq<Byte>, ghost written: seq<Byte>)
      modifies this`wantRead, this`cryptStatus, this`fatalErr, this`pendingErr, this`renegotiation
      modifies this`pending, this`inbound, this`produced, this`consumed
      ensures pending == old(pending) + written && produced == old(produced) + written
      ensures old(inbound) == read + inbound && consumed == old(consumed) + read
      ensures old(renegotiation) ==> renegotiation && read == [] && written == []
      ensures wantRead ==> old(wantRead)
      ensures old(fatalErr).Some? ==> fatalErr.Some?
      ensures old(renegotiation ==> fatalErr.Some?) ==> (renegotiation ==> fatalErr.Some?)
    {
      read, written := [], [];
      var steps: int := *;
      while steps > 0
        invariant pending == old(pending) + written && produced == old(produced) + written
        invariant old(inbound) == read + inbound && consumed == old(consumed) + read
        invariant old(renegotiation) ==> renegotiation && read == [] && written == []
        invariant wantRead ==> old(wantRead)
        invariant old(fatalErr).Some? ==> fatalErr.Some?
        invariant old(renegotiation ==> fatalErr.Some?) ==> (renegotiation ==> fatalErr.Some?)
      {
        steps := steps - 1;
        var kind: int := *;
        if kind == 0 {
          var data: seq<Byte>;
          data := *;
          var n := BioBucketWrite(data);
          if n >= 0 {
            written := written + data;
          }
        } else if kind == 1 {
          var inlen: int := *;
          ghost var status;
          var n, data;
          n, data, status := BioBucketRead(if inlen < 0 then 0 else inlen);
          read := read + data;
        } else if kind == 2 {
          DetectRenegotiate();
        } else {
          // a certificate callback reports what it found
          pendingErr := *;
        }
      }
    }

    /** SSL_write takes all of the data or, when it returns no positive number, nothing. */
    method SslWrite(ghost room: nat, data: seq<Byte>) returns (n: int)
      requires Engaged()
      modifies this`wantRead, this`cryptStatus, this`fatalErr, this`pendingErr, this`renegotiation
      modifies this`pending, this`inbound, this`produced, this`consumed, this`accepted, this`writes
      ensures writes == old(writes) + [Write(room, data, n > 0)]
      ensures accepted == old(accepted) + if n > 0 then data else []
      ensures Engaged() && old(pending) <= pending
      ensures wantRead ==> old(wantRead)
      ensures old(fatalErr).Some? ==> fatalErr.Some?
    {
      ghost var read, written := RunEngine();
      n := *;
      writes := writes + [Write(room, data, n > 0)];
      if n > 0 {
        accepted := accepted + data;
      }
    }

    // ----- The code -----

    method StatusFromSslError(err: SslError, doWantRead: bool) returns (status: Status)
      requires Engaged()
      modifies this`wantRead, this`fatalErr, this`pendingErr
      ensures Engaged() && (old(fatalErr).Some? ==> fatalErr.Some?)
      ensures wantRead == (old(wantRead) || (err == WantRead && doWantRead))
      ensures err == Syscall ==> status == cryptStatus
      ensures err == WantRead || err == WantWrite ==> status == if doWantRead then WaitConn else Again
      ensures err == Ssl && old(pendingErr) != Success ==> status == old(pendingErr) && pendingErr == Success
      ensures !(err == Ssl && old(pendingErr) != Success) ==> pendingErr == old(pendingErr)
      ensures if err == Unexpected || (err == Ssl && old(pendingErr) == Success)
              then (fatalErr == Some(SetupFailed) || fatalErr == Some(CommFailed)) && status == Error(fatalErr.value)
              else fatalErr == old(fatalErr)
    {
      match err
      case Syscall =>
        status := cryptStatus;
      case WantRead =>
        if doWantRead {
          wantRead := true;
        }
        status := if doWantRead then WaitConn else Again;
      case WantWrite =>
        status := if doWantRead then WaitConn else Again;
      case Ssl =>
        if pendingErr != Success {
          status := pendingErr;
          pendingErr := Success;
        } else {
          var inInit: bool := *;
          fatalErr := Some(if inInit then SetupFailed else CommFailed);
          status := Error(fatalErr.value);
        }
      case Unexpected =>
        fatalErr := Some(CommFailed);
        status := Error(CommFailed);
    }

    /**
     Neither plaintext moves nor ciphertext is lost while shaking hands.  When SSL_do_handshake fails, a
     read error, and what a certificate callback has found, is reported as it is; waiting is no error.
     */
    method SslHandshake(doWantRead: bool)
      returns (status: Status, ghost failed: bool, ghost err: SslError, ghost found: Status)
      requires Engaged()
      modifies this`wantRead, this`cryptStatus, this`fatalErr, this`pendingErr, this`renegotiation
      modifies this`pending, this`inbound, this`produced, this`consumed, this`handshakes, this`lastHandshake
      ensures handshakes == old(handshakes) + 1 && lastHandshake == status
      ensures Engaged() && old(pending) <= pending
      ensures status == Success || status.Error?
      ensures old(fatalErr).Some? ==> fatalErr.Some?
      ensures !failed || err == WantRead || err == WantWrite ==> status == Success
      ensures failed && err == Syscall ==> status == Reported(cryptStatus)
      ensures failed && err == Ssl && found != Success ==> status == Reported(found)
      ensures failed && (err == Unexpected || (err == Ssl && found == Success)) ==>
                fatalErr.Some? && status == Error(fatalErr.value)
      ensures wantRead ==> old(wantRead) || (failed && err == WantRead && doWantRead)
    {
      cryptStatus := Success;
      handshakes := handshakes + 1;
      ghost var read, written := RunEngine();
      var result: int := *;
      failed, err, found := result <= 0, Syscall, pendingErr;
      if result <= 0 {
        var sslErr: SslError := *;
        err := sslErr;
        status := StatusFromSslError(sslErr, doWantRead);
        lastHandshake := status;
        if status.Error? {
          return;
        }
      }
      status := Success;
      lastHandshake := status;
    }

    /**
     One round of the pump's loop, unless a read is wanted first: the stream is read, and what that
     brings goes to SSL_write.  What SSL_write does not take goes back to the front, where the next
     write finds it.
     */
    method PumpOnce(room: nat) returns (status: Status, left: nat)
      requires Engaged() && Retried()
      modifies this`wantRead, this`cryptStatus, this`fatalErr, this`pendingErr, this`renegotiation
      modifies this`stream, this`pending, this`inbound, this`produced, this`consumed, this`accepted
      modifies this`putBack, this`writes, this`pulls, this`fed, this`given, this`lastRead
      ensures Retried() && old(writes) <= writes
      ensures old(accepted + stream) == accepted + stream
      ensures old(accepted) <= accepted && |accepted| - |old(accepted)| + left <= room
      ensures old(wantRead) ==>
                unchanged(this) && left == room && status == if cryptStatus == Success then Again else cryptStatus
      ensures !old(wantRead) ==>
                && pulls == old(pulls) + 1 && given == old(given) + room - left
                && (Calm(old(|writes|)) ==> status == lastRead)
                && (room > 0 && (old(putBack) != [] || lastRead == Success) && !lastRead.Error? ==>
                      |writes| > |old(writes)|)
      ensures status == Success && room > 0 ==> left < room
      ensures status == Success ==> !wantRead
      ensures Engaged() && old(pending) <= pending
      ensures old(fatalErr).Some? ==> fatalErr.Some?
    {
      left := room;
      if wantRead {
        status := if cryptStatus == Success then Again else cryptStatus;
        return;
      }
      status, left := PumpStream(room);
    }

    /** No write since there were n, or the last one was taken. */
    ghost predicate Calm(n: nat)
      reads this`writes
    {
      |writes| == n || (writes != [] && writes[|writes| - 1].taken)
    }

    method PumpStream(room: nat) returns (status: Status, left: nat)
      requires Engaged() && Retried() && !wantRead
      modifies this`wantRead, this`cryptStatus, this`fatalErr, this`pendingErr, this`renegotiation
      modifies this`stream, this`pending, this`inbound, this`produced, this`consumed, this`accepted
      modifies this`putBack, this`writes, this`pulls, this`fed, this`given, this`lastRead
      ensures Retried() && old(writes) <= writes
      ensures old(accepted + stream) == accepted + stream
      ensures old(accepted) <= accepted && |accepted| - |old(accepted)| + left <= room
      ensures pulls == old(pulls) + 1 && given == old(given) + room - left
      ensures Calm(old(|writes|)) ==> status == lastRead
      ensures room > 0 && (old(putBack) != [] || lastRead == Success) && !lastRead.Error? ==> |writes| > |old(writes)|
      ensures status == Success && room > 0 ==> left < room
      ensures status == Success ==> !wantRead
      ensures Engaged() && old(pending) <= pending
      ensures old(fatalErr).Some? ==> fatalErr.Some?
    {
      left := room;
      ghost var before, refused := stream, putBack;
      var data;
      status, data := ReadPlain(room);
      if data != [] {
        left := room - |data|;
        status := WriteOut(status, room, data, refused, before);
      }
    }

    /** The status is that of reading the stream if the data was taken, and otherwise says why not. */
    method WriteOut(readStatus: Status, ghost room: nat, data: seq<Byte>, ghost refused: seq<Byte>,
                    ghost before: seq<Byte>)
      returns (status: Status)
      requires Engaged() && Consecutive() && !wantRead
      requires before == data + stream && putBack <= stream && 0 < |data| <= room
      requires refused <= before && (|data| >= room || |data| >= |refused|)
      requires writes != [] && !writes[|writes| - 1].taken ==> refused == writes[|writes| - 1].data
      requires |writes| + 1 == fed
      modifies this`wantRead, this`cryptStatus, this`fatalErr, this`pendingErr, this`renegotiation
      modifies this`stream, this`pending, this`inbound, this`produced, this`consumed, this`accepted
      modifies this`putBack, this`writes
      ensures Retried() && |writes| == |old(writes)| + 1 && old(writes) <= writes
      ensures accepted + stream == old(accepted) + before
      ensures accepted == old(accepted) || accepted == old(accepted) + data
      ensures writes[|writes| - 1].taken ==> status == readStatus
      ensures status == Success ==> !wantRead
      ensures Engaged() && old(pending) <= pending
      ensures old(fatalErr).Some? ==> fatalErr.Some?
    {
      status := readStatus;
      var n := Offer(room, data, refused, before);
      if n <= 0 {
        var err: SslError := *;
        status := StatusFromSslError(err, true);
      }
    }

    /** Plaintext read and combined into one buffer, if reading was no error. */
    method ReadPlain(room: nat) returns (status: Status, data: seq<Byte>)
      requires putBack <= stream
      modifies this`stream, this`putBack, this`pulls, this`fed, this`given, this`lastRead
      ensures old(stream) == data + stream && |data| <= room
      ensures status.Error? ==> data == []
      ensures status == Success && room > 0 ==> data != []
      ensures !status.Error? && old(putBack) != [] && room > 0 ==> data != []
      ensures data != [] ==> |data| >= room || |data| >= |old(putBack)|
      ensures data == [] ==> putBack == old(putBack)
      ensures putBack <= stream
      ensures lastRead == status && pulls == old(pulls) + 1 && given == old(given) + |data|
      ensures fed == old(fed) + if data != [] then 1 else 0
    {
      var vecs: seq<seq<Byte>>;
      status, vecs := ReadStream(room);
      data := [];
      if !status.Error? && vecs != [] {
        data := Combine(vecs);
      }
      lastRead, pulls, given := status, pulls + 1, given + |data|;
      fed := if data != [] then fed + 1 else fed;
    }

    /** Data goes to SSL_write and, if that fails, back. */
    method Offer(ghost room: nat, data: seq<Byte>, ghost refused: seq<Byte>, ghost before: seq<Byte>)
      returns (n: int)
      requires Engaged() && Consecutive()
      requires before == data + stream && putBack <= stream && 0 < |data| <= room
      requires refused <= before && (|data| >= room || |data| >= |refused|)
      requires writes != [] && !writes[|writes| - 1].taken ==> refused == writes[|writes| - 1].data
      requires |writes| + 1 == fed
      modifies this`wantRead, this`cryptStatus, this`fatalErr, this`pendingErr, this`renegotiation
      modifies this`stream, this`pending, this`inbound, this`produced, this`consumed, this`accepted
      modifies this`putBack, this`writes
      ensures Retried() && writes == old(writes) + [Write(room, data, n > 0)]
      ensures accepted + stream == old(accepted) + before
      ensures accepted == old(accepted) + if n > 0 then data else []
      ensures Engaged() && old(pending) <= pending
      ensures wantRead ==> old(wantRead)
      ensures old(fatalErr).Some? ==> fatalErr.Some?
    {
      assert |data| >= |refused| ==> refused <= data;
      assert |data| < |refused| ==> data <= refused;
      cryptStatus := Success;
      n := SslWrite(room, data);
      assert old(accepted) + before == (old(accepted) + data) + stream;
      if n <= 0 {
        PutBack(data);
      }
    }

    /** Refused data becomes a bucket of its own at the front of the stream. */
    method PutBack(data: seq<Byte>)
      modifies this`stream, this`putBack
      ensures stream == data + old(stream) && putBack == data
    {
      stream := data + stream;
      putBack := data;
    }

    /** Reads pending ciphertext into the caller's buffer. */
    method TakePending(bufsize: nat) returns (status: Status, buf: seq<Byte>)
      requires Conserved()
      modifies this`pending, this`returned
      ensures Conserved()
      ensures returned == old(returned) + buf && old(pending) == buf + pending && |buf| <= bufsize
      ensures status == Success || (status == Eof && pending == [])
      ensures old(pending) != [] && bufsize > 0 ==> buf != []
    {
      var vecs: seq<seq<Byte>>;
      status, vecs := ReadPending(bufsize);
      buf := Combine(vecs);
      assert returned + (buf + pending) == (returned + buf) + pending;
      returned := returned + buf;
    }

    /** What both directions do first. */
    method FirstHandshake(doWantRead: bool) returns (status: Status)
      requires Conserved()
      modifies this`wantRead, this`cryptStatus, this`fatalErr, this`pendingErr, this`renegotiation
      modifies this`pending, this`inbound, this`produced, this`consumed, this`handshakeDone, this`handshakes
      modifies this`lastHandshake
      ensures Conserved() && old(produced) <= produced
      ensures status == Success || status.Error?
      ensures handshakeDone && (old(fatalErr).Some? ==> fatalErr.Some?)
      ensures if old(handshakeDone) then unchanged(this) && status == Success else status == lastHandshake
    {
      status := Success;
      if !handshakeDone {
        handshakeDone := true;
        ghost var failed, err, found;
        status, failed, err, found := SslHandshake(doWantRead);
      }
    }

    /**
     The loop: it makes a round, unless a read is wanted, and goes on while rounds succeed and there is
     room; it ends because such a round has used up some of the room.
     */
    method PumpLoop(bufsize: nat) returns (status: Status)
      requires Conserved() && Retried()
      modifies this`wantRead, this`cryptStatus, this`fatalErr, this`pendingErr, this`renegotiation
      modifies this`stream, this`pending, this`inbound, this`produced, this`consumed, this`accepted
      modifies this`putBack, this`writes, this`pulls, this`fed, this`given, this`lastRead
      ensures Conserved() && Retried() && old(writes) <= writes
      ensures old(accepted) <= accepted && |accepted| <= |old(accepted)| + bufsize
      ensures old(wantRead) ==> unchanged(this) && status == if cryptStatus == Success then Again else cryptStatus
      ensures !old(wantRead) ==>
                && pulls > old(pulls)
                && (status == Success ==> given == old(given) + bufsize)
                && (Calm(old(|writes|)) ==> status == lastRead)
                && (bufsize > 0 && old(putBack) != [] && !status.Error? ==> |writes| > |old(writes)|)
      ensures old(fatalErr).Some? ==> fatalErr.Some?
    {
      var room: nat, more := bufsize, true;
      status := Success;
      while more
        invariant Conserved() && old(accepted) <= accepted && |accepted| - |old(accepted)| + room <= bufsize
        invariant Retried() && old(writes) <= writes
        invariant old(wantRead) ==> unchanged(this) && (more ==> room == bufsize)
        invariant old(wantRead) && !more ==> status == if cryptStatus == Success then Again else cryptStatus
        invariant !old(wantRead) && pulls == old(pulls) ==>
                    more && room == bufsize && !wantRead && putBack == old(putBack) && writes == old(writes)
        invariant !old(wantRead) && pulls > old(pulls) ==>
                    && (more ==> status == Success && room > 0) && (status == Success && !more ==> room == 0)
                    && (status == Success ==> !wantRead)
                    && (Calm(old(|writes|)) ==> status == lastRead)
                    && (bufsize > 0 && old(putBack) != [] && !status.Error? ==> |writes| > |old(writes)|)
        invariant !old(wantRead) ==> pulls >= old(pulls) && given == old(given) + bufsize - room
        invariant old(fatalErr).Some? ==> fatalErr.Some?
        decreases if more then room + 1 else 0
      {
        status, room := PumpOnce(room);
        more := status == Success && room > 0;
      }
    }

    /**
     ssl_encrypt: hands out ciphertext, first what is left over, then what a run of the pump makes.
     An error brings no data and, once fatal, stays; a status that is not a success means that no
     ciphertext is left behind.  With nothing left over and no read wanted, the stream is read and what
     it brings is written, what was put back in any case.
     */
    method Encrypt(bufsize: nat) returns (status: Status, buf: seq<Byte>)
      requires Conserved() && Retried()
      modifies this`wantRead, this`cryptStatus, this`fatalErr, this`pendingErr, this`renegotiation
      modifies this`stream, this`pending, this`inbound, this`produced, this`consumed, this`accepted
      modifies this`putBack, this`writes, this`returned, this`pulls, this`fed, this`given, this`lastRead
      modifies this`handshakeDone, this`handshakes, this`lastHandshake
      ensures Retried() && old(writes) <= writes
      ensures Conserved() && queued == old(queued) && arrived == old(arrived)
      ensures returned == old(returned) + buf && |buf| <= bufsize && decrypted == old(decrypted)
      ensures old(accepted) <= accepted && |accepted| <= |old(accepted)| + bufsize
      ensures old(fatalErr).Some? ==> unchanged(this) && status == Error(old(fatalErr).value) && buf == []
      ensures old(fatalErr) == None ==> handshakeDone
      ensures status.Error? ==> buf == []
      ensures status != Success && !status.Error? ==> pending == []
      ensures old(fatalErr) == None && !old(handshakeDone) && lastHandshake.Error? ==>
                status == lastHandshake && pulls == old(pulls)
      ensures old(wantRead) && old(handshakeDone) ==> accepted == old(accepted) && pulls == old(pulls)
      ensures old(fatalErr) == None && old(handshakeDone) && !old(wantRead) && old(pending) == [] ==>
                && pulls > old(pulls)
                && (bufsize > 0 && old(putBack) != [] && !status.Error? ==> |writes| > |old(writes)|)
      ensures old(fatalErr) == None && bufsize > 0 && buf == [] && !status.Error? ==> pulls > old(pulls) || wantRead
      ensures old(fatalErr) == None && old(handshakeDone) && old(pending) != [] && bufsize > 0 ==>
                status == Success && buf != [] && buf + pending == old(pending) && accepted == old(accepted)
    {
      buf := [];
      if fatalErr.Some? {
        return Error(fatalErr.value), [];
      }
      status, buf := EncryptAlive(bufsize);
    }

    /** Without a fatal error: the handshake first, if it is due, and then the rest. */
    method EncryptAlive(bufsize: nat) returns (status: Status, buf: seq<Byte>)
      requires Conserved() && Retried()
      modifies this`wantRead, this`cryptStatus, this`fatalErr, this`pendingErr, this`renegotiation
      modifies this`stream, this`pending, this`inbound, this`produced, this`consumed, this`accepted
      modifies this`putBack, this`writes, this`returned, this`pulls, this`fed, this`given, this`lastRead
      modifies this`handshakeDone, this`handshakes, this`lastHandshake
      ensures Conserved() && Retried() && old(writes) <= writes && handshakeDone
      ensures returned == old(returned) + buf && |buf| <= bufsize
      ensures old(accepted) <= accepted && |accepted| <= |old(accepted)| + bufsize
      ensures status.Error? ==> buf == []
      ensures status != Success && !status.Error? ==> pending == []
      ensures !old(handshakeDone) && lastHandshake.Error? ==> status == lastHandshake && pulls == old(pulls)
      ensures old(handshakeDone) && old(wantRead) ==> accepted == old(accepted) && pulls == old(pulls)
      ensures old(handshakeDone) && !old(wantRead) && old(pending) == [] ==>
                && pulls > old(pulls)
                && (bufsize > 0 && old(putBack) != [] && !status.Error? ==> |writes| > |old(writes)|)
      ensures bufsize > 0 && buf == [] && !status.Error? ==> pulls > old(pulls) || wantRead
      ensures old(handshakeDone) && old(pending) != [] && bufsize > 0 ==>
                status == Success && buf != [] && buf + pending == old(pending) && accepted == old(accepted)
    {
      buf := [];
      status := FirstHandshake(true);
      if !status.Error? {
        status, buf := EncryptMore(bufsize);
      }
    }

    /** The rest of ssl_encrypt, once the handshake has been started. */
    method EncryptMore(bufsize: nat) returns (status: Status, buf: seq<Byte>)
      requires Conserved() && Retried()
      modifies this`wantRead, this`cryptStatus, this`fatalErr, this`pendingErr, this`renegotiation
      modifies this`stream, this`pending, this`inbound, this`produced, this`consumed, this`accepted
      modifies this`putBack, this`writes, this`returned, this`pulls, this`fed, this`given, this`lastRead
      ensures Conserved() && Retried() && old(writes) <= writes
      ensures returned == old(returned) + buf && |buf| <= bufsize
      ensures old(accepted) <= accepted && |accepted| <= |old(accepted)| + bufsize
      ensures status.Error? ==> buf == []
      ensures status != Success && !status.Error? ==> pending == []
      ensures old(wantRead) ==> wantRead && accepted == old(accepted) && pulls == old(pulls)
      ensures !old(wantRead) && old(pending) == [] ==>
                && pulls > old(pulls)
                && (bufsize > 0 && old(putBack) != [] && !status.Error? ==> |writes| > |old(writes)|)
      ensures old(pending) != [] && bufsize > 0 ==>
                status == Success && buf != [] && buf + pending == old(pending) && accepted == old(accepted)
    {
      status, buf := TakePending(bufsize);
      if |buf| > 0 {
        status := Success;
        return;
      }
      status, buf := PumpAndTake(bufsize);
    }

    method PumpAndTake(bufsize: nat) returns (status: Status, buf: seq<Byte>)
      requires Conserved() && Retried()
      modifies this`wantRead, this`cryptStatus, this`fatalErr, this`pendingErr, this`renegotiation
      modifies this`stream, this`pending, this`inbound, this`produced, this`consumed, this`accepted
      modifies this`putBack, this`writes, this`returned, this`pulls, this`fed, this`given, this`lastRead
      ensures Conserved() && Retried() && old(writes) <= writes
      ensures returned == old(returned) + buf && |buf| <= bufsize
      ensures old(accepted) <= accepted && |accepted| <= |old(accepted)| + bufsize
      ensures status.Error? ==> buf == []
      ensures status != Success && !status.Error? ==> pending == []
      ensures old(wantRead) ==> wantRead && accepted == old(accepted) && pulls == old(pulls)
      ensures !old(wantRead) ==>
                && pulls > old(pulls)
                && (bufsize > 0 && old(putBack) != [] && !status.Error? ==> |writes| > |old(writes)|)
    {
      buf := [];
      status := PumpLoop(bufsize);
      if !status.Error? {
        var aggStatus: Status;
        aggStatus, buf := TakePending(bufsize);
        if aggStatus == Success {
          status := Success;
        }
      }
    }

    /** SSL_read hands over what it has decrypted, or returns no positive number. */
    method SslRead(bufsize: nat) returns (n: int, data: seq<Byte>)
      requires Conserved()
      modifies this`wantRead, this`cryptStatus, this`fatalErr, this`pendingErr, this`renegotiation
      modifies this`pending, this`inbound, this`produced, this`consumed, this`decrypted, this`sslReads
      ensures sslReads == old(sslReads) + 1 && (wantRead ==> old(wantRead))
      ensures Conserved() && (old(fatalErr).Some? ==> fatalErr.Some?)
      ensures decrypted == old(decrypted) + data
      ensures if n > 0 then n == |data| <= bufsize else data == []
    {
      ghost var read, written := RunEngine();
      sslReads := sslReads + 1;
      n := *;
      data := *;
      if n != |data| || n > bufsize || n <= 0 {
        n, data := if n > 0 then 0 else n, [];
      }
      decrypted := decrypted + data;
    }

    method DecryptSome(bufsize: nat) returns (status: Status, buf: seq<Byte>)
      requires Conserved()
      modifies this`wantRead, this`cryptStatus, this`fatalErr, this`pendingErr, this`renegotiation
      modifies this`pending, this`inbound, this`produced, this`consumed, this`decrypted, this`sslReads
      ensures sslReads == old(sslReads) + 1 && !wantRead
      ensures buf != [] ==> status == cryptStatus
      ensures Conserved() && decrypted == old(decrypted) + buf && |buf| <= bufsize
    {
      wantRead := false;
      cryptStatus := Success;
      var n: int;
      n, buf := SslRead(bufsize);
      if n < 0 {
        var err: SslError := *;
        status := StatusFromSslError(err, false);
      } else if n == 0 {
        var shutDown: bool := *;
        if shutDown {
          status := Eof;
        } else {
          fatalErr := Some(CommFailed);
          status := Error(CommFailed);
        }
      } else {
        status := cryptStatus;
      }
    }

    /**
     ssl_decrypt: it calls SSL_read, after which no read is wanted any more; it moves no plaintext of
     ours, and what it returns, even with an error, is exactly what the engine has decrypted.
     */
    method Decrypt(bufsize: nat) returns (status: Status, buf: seq<Byte>)
      requires Conserved() && Retried()
      modifies this`wantRead, this`cryptStatus, this`fatalErr, this`pendingErr, this`renegotiation
      modifies this`pending, this`inbound, this`produced, this`consumed, this`decrypted, this`sslReads
      modifies this`handshakeFinished, this`handshakeDone, this`handshakes, this`lastHandshake
      ensures old(fatalErr) == None && buf != [] && !status.Error? ==> status == cryptStatus
      ensures Retried() && writes == old(writes)
      ensures Conserved() && queued == old(queued) && arrived == old(arrived)
      ensures accepted == old(accepted) && returned == old(returned)
      ensures decrypted == old(decrypted) + buf && |buf| <= bufsize
      ensures old(fatalErr) == None && !old(handshakeDone) && lastHandshake.Error? ==>
                status == lastHandshake && sslReads == old(sslReads)
      ensures old(fatalErr) == None && old(handshakeDone) ==> sslReads == old(sslReads) + 1 && !wantRead
      ensures old(fatalErr).Some? ==> unchanged(this) && status == Error(old(fatalErr).value) && buf == []
      ensures old(fatalErr) == None ==> handshakeDone
    {
      buf := [];
      if fatalErr.Some? {
        return Error(fatalErr.value), [];
      }
      status, buf := DecryptAlive(bufsize);
    }

    /** Without a fatal error: the handshake first, if it is due, and then the rest. */
    method DecryptAlive(bufsize: nat) returns (status: Status, buf: seq<Byte>)
      requires Conserved()
      modifies this`wantRead, this`cryptStatus, this`fatalErr, this`pendingErr, this`renegotiation
      modifies this`pending, this`inbound, this`produced, this`consumed, this`decrypted, this`sslReads
      modifies this`handshakeFinished, this`handshakeDone, this`handshakes, this`lastHandshake
      ensures buf != [] && !status.Error? ==> status == cryptStatus
      ensures Conserved() && handshakeDone
      ensures decrypted == old(decrypted) + buf && |buf| <= bufsize
      ensures !old(handshakeDone) && lastHandshake.Error? ==> status == lastHandshake && sslReads == old(sslReads)
      ensures old(handshakeDone) ==> sslReads == old(sslReads) + 1 && !wantRead
    {
      buf := [];
      status := FirstHandshake(false);
      if !status.Error? {
        status, buf := DecryptMore(bufsize);
      }
    }

    /** The rest of ssl_decrypt, with what the callback for the negotiated protocol says. */
    method DecryptMore(bufsize: nat) returns (status: Status, buf: seq<Byte>)
      requires Conserved()
      modifies this`wantRead, this`cryptStatus, this`fatalErr, this`pendingErr, this`renegotiation
      modifies this`pending, this`inbound, this`produced, this`consumed, this`decrypted, this`sslReads
      modifies this`handshakeFinished
      ensures buf != [] && !status.Error? ==> status == cryptStatus
      ensures sslReads == old(sslReads) + 1 && !wantRead
      ensures Conserved() && decrypted == old(decrypted) + buf && |buf| <= bufsize
    {
      status, buf := DecryptSome(bufsize);
      if !handshakeFinished && !status.Error? {
        handshakeFinished := *;
        var negotiated: Status := *;
        if negotiated.Error? {
          status := negotiated;
        }
      }
    }

    /** The application adds to the stream. */
    method Queue(data: seq<Byte>)
      requires Conserved() && Retried()
      modifies this`stream, this`queued
      ensures Retried()
      ensures Conserved() && queued == old(queued) + data
    {
      stream := stream + data;
      queued := queued + data;
    }

    /** The network adds to the inbound stream. */
    method Arrive(data: seq<Byte>)
      requires Conserved()
      modifies this`inbound, this`arrived
      ensures Conserved() && arrived == old(arrived) + data
    {
      inbound := inbound + data;
      arrived := arrived + data;
    }

    method Take(turn: Turn) returns (wire: seq<Byte>, plain: seq<Byte>)
      requires Conserved() && Retried()
      modifies this
      ensures Conserved() && Retried() && old(writes) <= writes
      ensures queued == old(queued) + (if turn.Queueing? then turn.data else []) && old(accepted) <= accepted
      ensures returned == old(returned) + wire && decrypted == old(decrypted) + plain
      ensures old(fatalErr).Some? ==>
                && fatalErr == old(fatalErr) && wire == [] && plain == []
                && accepted == old(accepted) && produced == old(produced) && consumed == old(consumed)
    {
      wire, plain := [], [];
      match turn
      case Queueing(data) => Queue(data);
      case Arriving(data) => Arrive(data);
      case Encrypting(bufsize) =>
        var status;
        status, wire := Encrypt(bufsize);
      case Decrypting(bufsize) =>
        var status;
        status, plain := Decrypt(bufsize);
    }

    /**
     Any number of calls in any order, whatever the engine does in them.  The plaintext queued is what
     was accepted and what is left; the ciphertext handed out is what was produced, but for what is
     pending; the plaintext returned is what was decrypted.  A write that was refused is repeated with the
     same data.  After a fatal error nothing moves any more.
     */
    method Session(turns: seq<Turn>) returns (wire: seq<Byte>, plain: seq<Byte>)
      requires Conserved() && Retried()
      modifies this
      ensures Conserved() && Retried() && old(writes) <= writes
      ensures queued == old(queued) + Queued(turns) && old(accepted) <= accepted
      ensures returned == old(returned) + wire && decrypted == old(decrypted) + plain
      ensures old(fatalErr).Some? ==>
                && fatalErr == old(fatalErr) && wire == [] && plain == []
                && accepted == old(accepted) && produced == old(produced) && consumed == old(consumed)
    {
      wire, plain := [], [];
      for i := 0 to |turns|
        invariant Conserved() && Retried() && old(writes) <= writes
        invariant queued == old(queued) + Queued(turns[..i]) && old(accepted) <= accepted
        invariant returned == old(returned) + wire && decrypted == old(decrypted) + plain
        invariant old(fatalErr).Some? ==>
                    && fatalErr == old(fatalErr) && wire == [] && plain == []
                    && accepted == old(accepted) && produced == old(produced) && consumed == old(consumed)
      {
        assert turns[..i + 1][..i] == turns[..i];
        var someWire, somePlain := Take(turns[i]);
        wire, plain := wire + someWire, plain + somePlain;
      }
      assert turns[..|turns|] == turns;
    }

    /** Once the server has asked to renegotiate, in whatever call it was, no later call moves a byte. */
    method SessionAfterRenegotiation(turns: seq<Turn>) returns (wire: seq<Byte>, plain: seq<Byte>)
      requires Conserved() && Retried() && renegotiation
      modifies this
      ensures wire == [] && plain == []
      ensures accepted == old(accepted) && produced == old(produced) && consumed == old(consumed)
      ensures fatalErr == old(fatalErr) && fatalErr.Some?
    {
      wire, plain := Session(turns);
    }
  }

  /** What is left of one prefix of a stream when another one is read. */
  lemma UnreadPart(stream: seq<Byte>, data: seq<Byte>, putBack: seq<Byte>)
    requires data <= stream && putBack <= stream
    ensures var left := if |data| < |putBack| then putBack[|data|..] else [];
            putBack <= data + left && left <= stream[|data|..]
  {
  }

  datatype Turn =
    | Queueing(data: seq<Byte>)
    | Arriving(data: seq<Byte>)
    | Encrypting(bufsize: nat)
    | Decrypting(bufsize: nat)

  function Queued(turns: seq<Turn>): seq<Byte>
    decreases |turns|
  {
    if turns == [] then []
    else
      var last := turns[|turns| - 1];
      Queued(turns[..|turns| - 1]) + if last.Queueing? then last.data else []
  }
}
