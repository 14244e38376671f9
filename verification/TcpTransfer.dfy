/** examples/tcp/tcp-large-transfer.cc: a byte stream written piece by piece, whenever the socket has
    room, from a buffer that repeats the alphabet. */
module TcpTransfer {

  const TOTAL_TX_BYTES: nat := 2_000_000
  const WRITE_SIZE: nat := 1040

  type Byte = nat

  /** Byte k of the intended stream. */
  function Pattern(k: nat): Byte {
    97 + k % 26
  }

  /** The bytes are the beginning of the intended stream. */
  ghost predicate IsStart(bytes: seq<Byte>) {
    forall k :: 0 <= k < |bytes| ==> bytes[k] == Pattern(k)
  }

  /** Because the buffer holds whole alphabets, starting over at its front does not break the pattern. */
  lemma NextPiece(sent: seq<Byte>, buffer: seq<Byte>, amount: nat)
    requires IsStart(sent) && IsStart(buffer) && |buffer| == WRITE_SIZE
    requires |sent| % WRITE_SIZE + amount <= WRITE_SIZE
    ensures IsStart(sent + buffer[|sent| % WRITE_SIZE..|sent| % WRITE_SIZE + amount])
  {
    var offset := |sent| % WRITE_SIZE;
    var more := sent + buffer[offset..offset + amount];
    forall k | 0 <= k < |more| ensures more[k] == Pattern(k) {
      if k >= |sent| {
        assert more[k] == buffer[offset + (k - |sent|)];
        WholeAlphabets(|sent|, k - |sent|);
      }
    }
  }

  /** A TCP socket: it tells how much it could buffer, and accepts some positive part of what it is
      offered or refuses. How much is up to it. */
  class Socket {
    var txAvailable: nat
    ghost var accepted: seq<Byte>
    ghost var closes: nat

    constructor ()
      ensures accepted == [] && closes == 0
    {
      txAvailable := *;
      accepted, closes := [], 0;
    }

    method Send(data: array<Byte>, offset: nat, size: nat) returns (amount: int)
      requires 0 < size <= data.Length - offset
      modifies this
      ensures closes == old(closes)
      ensures amount < 0 ==> accepted == old(accepted)
      ensures amount >= 0 ==> 0 < amount <= size && accepted == old(accepted) + data[offset..offset + amount]
    {
      amount := *;
      if amount == 0 || amount > size {
        amount := size;
      }
      if amount > 0 {
        accepted := accepted + data[offset..offset + amount];
      }
      txAvailable := *;
    }

    method Close()
      modifies this`closes
      ensures closes == old(closes) + 1
    {
      closes := closes + 1;
    }
  }

  /** The globals of the program. */
  class Transfer {
    const data: array<Byte>
    var currentTxBytes: nat

    /** Initialisation of the tx buffer, lines 82-86. */
    constructor ()
      ensures fresh(data) && data.Length == WRITE_SIZE && currentTxBytes == 0
      ensures IsStart(data[..])
    {
      data := new Byte[WRITE_SIZE];
      currentTxBytes := 0;
      new;
      for i := 0 to WRITE_SIZE
        invariant currentTxBytes == 0 && forall j :: 0 <= j < i ==> data[j] == Pattern(j)
      {
        data[i] := 97 + i % 26;
      }
    }

    /** The socket has accepted exactly the first currentTxBytes bytes of the intended stream. */
    ghost predicate InStep(socket: Socket)
      reads this, data, socket
    {
      && data.Length == WRITE_SIZE && IsStart(data[..])
      && |socket.accepted| == currentTxBytes <= TOTAL_TX_BYTES && IsStart(socket.accepted)
    }

    /** One send callback. It returns when everything has been accepted, when there is no room, or when
        the socket refuses; the socket is closed in the first case only. */
    method WriteUntilBufferFull(socket: Socket, txSpace: nat) returns (ghost refused: bool)
      requires InStep(socket)
      modifies this`currentTxBytes, socket
      ensures InStep(socket)
      ensures old(socket.accepted) <= socket.accepted
      ensures currentTxBytes == TOTAL_TX_BYTES || refused || socket.txAvailable == 0
      ensures socket.closes == old(socket.closes) + if currentTxBytes == TOTAL_TX_BYTES then 1 else 0
    {
      hide IsStart;
      refused := false;
      while currentTxBytes < TOTAL_TX_BYTES && socket.txAvailable > 0
        invariant InStep(socket) && old(socket.accepted) <= socket.accepted && socket.closes == old(socket.closes)
        decreases TOTAL_TX_BYTES - currentTxBytes
      {
        var left := TOTAL_TX_BYTES - currentTxBytes;
        var dataOffset := currentTxBytes % WRITE_SIZE;
        var toWrite := WRITE_SIZE - dataOffset;
        toWrite := if toWrite <= left then toWrite else left;
        toWrite := if toWrite <= socket.txAvailable then toWrite else socket.txAvailable;
        ghost var sent := socket.accepted;
        var amountSent := socket.Send(data, dataOffset, toWrite);
        if amountSent < 0 {
          refused := true;
          return;
        }
        NextPiece(sent, data[..], amountSent);
        assert data[..][dataOffset..dataOffset + amountSent] == data[dataOffset..dataOffset + amountSent];
        currentTxBytes := currentTxBytes + amountSent;
      }
      if currentTxBytes >= TOTAL_TX_BYTES {
        socket.Close();
      }
    }

    /** StartFlow and then any sequence of callbacks; between two callbacks the room may change freely. */
    method Session(socket: Socket, callbacks: seq<nat>)
      requires InStep(socket) && currentTxBytes == 0 && socket.closes == 0
      modifies this`currentTxBytes, socket
      ensures InStep(socket)
      ensures socket.closes > 0 <==> currentTxBytes == TOTAL_TX_BYTES
    {
      ghost var refused := WriteUntilBufferFull(socket, socket.txAvailable);
      for i := 0 to |callbacks|
        invariant InStep(socket)
        invariant socket.closes > 0 <==> currentTxBytes == TOTAL_TX_BYTES
      {
        socket.txAvailable := callbacks[i];
        refused := WriteUntilBufferFull(socket, callbacks[i]);
      }
    }
  }

  /** 1040 is a multiple of 26. */
  lemma WholeAlphabets(sent: nat, i: nat)
    requires sent % WRITE_SIZE + i < WRITE_SIZE
    ensures Pattern(sent % WRITE_SIZE + i) == Pattern(sent + i)
  {
    var buffers, offset := sent / WRITE_SIZE, sent % WRITE_SIZE;
    assert sent + i == 26 * (40 * buffers) + (offset + i);
    SkipAlphabets(40 * buffers, offset + i);
  }

  lemma SkipAlphabets(m: nat, k: nat)
    ensures (26 * m + k) % 26 == k % 26
  {
  }
}
