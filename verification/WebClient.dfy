/** A client behind a WebSocket: what it reads has gone through the decoder. */
module WebClient {
  import opened Bytes
  import Decoding = WebsocketSpec
  import Requests = ClientSpec
  import Websocket
  import Client

  /** The decoder of a connection and the client behind it. */
  datatype Peer = Peer(d: Decoding.State, c: Requests.Client)

  function Gone(c: Requests.Client): Requests.Client {
    c.(s := c.s.(disconnected := true))
  }

  /** One read of the socket: what the decoder returns is what the client gets, or a disconnect, or nothing for now. */
  function Got(cfg: Requests.Config, p: Peer, input: seq<byte>): Peer {
    match Decoding.Run(p.d, input)
    case Going(d, out) => Peer(d, Returned(cfg, p.c, Decoding.Code(p.d, input), out))
    case Closed(out) => Peer(Decoding.Header([]), Returned(cfg, p.c, Decoding.Code(p.d, input), out))
    case Failed => Peer(p.d, Gone(p.c))
  }

  function Returned(cfg: Requests.Config, c: Requests.Client, code: int, data: seq<byte>): Requests.Client {
    if code > 0 then Requests.Fed(cfg, c, data) else if code == Decoding.IO_CONTINUE then c else Gone(c)
  }

  function GotAll(cfg: Requests.Config, p: Peer, pieces: seq<seq<byte>>): Peer {
    if pieces == [] then p else Got(cfg, GotAll(cfg, p, pieces[..|pieces| - 1]), pieces[|pieces| - 1])
  }

  function New(cfg: Requests.Config, nonce: seq<byte>): Peer {
    Peer(Decoding.Header([]), Requests.Client(Requests.Created(cfg, nonce), [], []))
  }

  /** The read handler of the client, with the decoder in between. */
  method HandleRead(w: Websocket.Connection, c: Client.Connection, input: seq<byte>)
    requires w.Valid() && c.Valid() && w.frame != c.buffer && 0 < |input| <= Client.BUFFER_SIZE - c.bufferUsed
    modifies w, w.frame, c, c.buffer
    ensures w.Valid() && c.Valid()
    ensures var p := Got(c.cfg, old(Peer(w.Decoder(), c.View())), input);
            && Requests.Same(c.View(), p.c)
            && (Decoding.Run(old(w.Decoder()), input).Going? ==> w.Decoder() == p.d)
            && (Decoding.Code(old(w.Decoder()), input) > 0 ==> w.Decoder() == p.d)
  {
    var ret, data := Websocket.Receive(w, input);
    var r :=
      if ret > 0 then Client.Data(data)
      else if ret == 0 then Client.End
      else if ret == Decoding.IO_CONTINUE then Client.Nothing
      else Client.Error;
    c.HandleRead(r);
  }

  /** A read of the socket disconnects the client if and only if the decoder returns zero or an error, or a request in
      what was read disconnects it; it hands on exactly what was decoded. */
  lemma GotExactly(cfg: Requests.Config, p: Peer, input: seq<byte>)
    ensures var code, c := Decoding.Code(p.d, input), Got(cfg, p, input).c;
            && (code == 0 || code == -1 ==> c == p.c.(s := p.c.s.(disconnected := true)))
            && (code == Decoding.IO_CONTINUE ==> c == p.c)
            && (code > 0 ==> c == Requests.Fed(cfg, p.c, Decoding.Run(p.d, input).out))
            && (code == 0 || code == -1 || code == Decoding.IO_CONTINUE || code == |Decoding.Run(p.d, input).out| > 0)
  {
  }

  // ----- streams of frames

  lemma ConcatenatedMore(chunks: seq<seq<byte>>, chunk: seq<byte>)
    ensures Concatenated(chunks + [chunk]) == Concatenated(chunks) + chunk
  {
    assert (chunks + [chunk])[..|chunks|] == chunks;
  }

  /** One read of such a stream. */
  lemma GotOfStream(cfg: Requests.Config, c: Requests.Client, fs: seq<Decoding.Frame>, before: seq<byte>,
                    input: seq<byte>, d: Decoding.State, data: seq<byte>)
    returns (d': Decoding.State, out: seq<byte>)
    requires Decoding.AllWellFormed(fs) && before + input <= Decoding.Stream(fs) && input != []
    requires Decoding.Run(Decoding.Header([]), before) == Decoding.Going(d, data)
    ensures Decoding.Run(Decoding.Header([]), before + input) == Decoding.Going(d', data + out)
    ensures Got(cfg, Peer(d, c), input) == Peer(d', if out == [] then c else Requests.Fed(cfg, c, out))
  {
    Websocket.ReadOfStream(fs, before, input, d, data);
    var r := Decoding.Run(d, input);
    d', out := r.d, r.out;
  }

  /** The client has read, piece by piece, what is decoded so far. */
  lemma {:induction false} GotAllOfStream(cfg: Requests.Config, nonce: seq<byte>, fs: seq<Decoding.Frame>,
                                          pieces: seq<seq<byte>>)
    returns (chunks: seq<seq<byte>>)
    requires Decoding.AllWellFormed(fs) && Concatenated(pieces) <= Decoding.Stream(fs)
    requires forall i :: 0 <= i < |pieces| ==> pieces[i] != []
    ensures var p := GotAll(cfg, New(cfg, nonce), pieces);
            && p.c == Requests.FedAll(cfg, New(cfg, nonce).c, chunks)
            && Decoding.Run(Decoding.Header([]), Concatenated(pieces)) == Decoding.Going(p.d, Concatenated(chunks))
    decreases |pieces|
  {
    if pieces == [] {
      chunks := [];
    } else {
      var n := |pieces| - 1;
      chunks := GotAllOfStream(cfg, nonce, fs, pieces[..n]);
      var p := GotAll(cfg, New(cfg, nonce), pieces[..n]);
      var d, out := GotOfStream(cfg, p.c, fs, Concatenated(pieces[..n]), pieces[n], p.d, Concatenated(chunks));
      if out == [] {
        assert Concatenated(chunks) + out == Concatenated(chunks);
      } else {
        ConcatenatedMore(chunks, out);
        Requests.FedNext(cfg, New(cfg, nonce).c, chunks, out);
        chunks := chunks + [out];
      }
    }
  }

  /** For every stream of masked binary frames with payload and every cut into reads, the client handles the requests in
      the payloads, wherever frames and reads begin and end. */
  lemma StreamIsRequests(cfg: Requests.Config, nonce: seq<byte>, fs: seq<Decoding.Frame>, pieces: seq<seq<byte>>)
    requires Decoding.AllWellFormed(fs) && Concatenated(pieces) == Decoding.Stream(fs)
    requires forall i :: 0 <= i < |pieces| ==> pieces[i] != []
    ensures Requests.Same(GotAll(cfg, New(cfg, nonce), pieces).c,
                          Requests.Fed(cfg, New(cfg, nonce).c, Decoding.Payloads(fs)))
  {
    var chunks := GotAllOfStream(cfg, nonce, fs, pieces);
    Decoding.StreamDecodes(fs);
    Requests.CutsDoNotMatter(cfg, nonce, chunks);
  }
}
