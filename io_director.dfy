/** The IODirector object: two circular queues, the channel and file-session
    fields, and the transports it polls, with one method per operation of
    the source. Each method is proved to do to the director's state exactly
    what the matching function of DirectorSpec says, so every property
    proved there holds of the methods. */
module Director {
  import opened CircularQueue
  import opened DirectorSpec

  class IODirector {
    const inQueue: Queue
    const outQueue: Queue
    var fileOpen: bool
    var currentChannel: Channel
    var interruptedChannel: Channel

    // The transports. Their environment may change these fields between
    // calls: bytes arrive on the serial port or the client, a client
    // disconnects, files appear on the card.
    var serialRx: seq<byte>
    var serialTx: seq<byte>
    var forthFile: seq<byte>
    var card: map<seq<byte>, seq<byte>>
    /** Every name passed to SD.open, oldest first. */
    ghost var opens: seq<seq<byte>>
    var serverClient: Client
    var netTx: seq<byte>

    /** The objects the director's methods may change. */
    ghost function Repr(): set<object> {
      {this, inQueue, inQueue.elements, outQueue, outQueue.elements}
    }

    ghost predicate Valid()
      reads inQueue, inQueue.elements, outQueue, outQueue.elements
    {
      inQueue != outQueue && inQueue.elements != outQueue.elements &&
      inQueue.Valid() && outQueue.Valid()
    }

    /** The director's state as a value. */
    ghost function Model(): State
      reads this, inQueue, outQueue
    {
      State(inQueue.Contents, outQueue.Contents, fileOpen, currentChannel, interruptedChannel,
            serialRx, serialTx, forthFile, card, opens, serverClient, netTx)
    }

    constructor (sdCard: map<seq<byte>, seq<byte>>)
      ensures Valid() && fresh(Repr() - {this})
      ensures Model() == Initial(sdCard)
    {
      inQueue := new Queue.Init();
      outQueue := new Queue.Init();
      fileOpen := false;
      currentChannel := SerialIO;
      interruptedChannel := SerialIO;
      serialRx, serialTx := [], [];
      forthFile, card, opens := [], sdCard, [];
      serverClient, netTx := NoClient, [];
    }

    /** processQueues: one polling step on the current channel; `incoming`
        is what the server hands out if the network step polls it. The room
        in the input queue is taken once, before anything moves. */
    method ProcessQueues(incoming: Accept)
      requires Valid()
      modifies Repr()
      ensures Valid()
      ensures Model() == Step(old(Model()), incoming)
    {
      var roomInQueue := inQueue.RoomLeft();
      match currentChannel
      case SerialIO => ProcessSerial(roomInQueue);
      case FileIO => ProcessFile(roomInQueue);
      case NetIO => ProcessNet(roomInQueue, incoming);
    }

    /** The SERIAL_IO case of processQueues. */
    method ProcessSerial(roomInQueue: int)
      requires Valid() && roomInQueue == Room(inQueue.Contents)
      modifies Repr()
      ensures Valid()
      ensures Model() == SerialStep(old(Model()))
    {
      ghost var n := Min(roomInQueue, |serialRx|);
      var charsAvailable := |serialRx|;
      if charsAvailable != 0 {
        var charCount := Min(roomInQueue, charsAvailable);
        for i := 0 to charCount
          modifies this`serialRx, inQueue, inQueue.elements
          invariant Valid()
          invariant inQueue.Contents == old(inQueue.Contents) + old(serialRx)[..i]
          invariant serialRx == old(serialRx)[i..]
        {
          var ch := serialRx[0];
          serialRx := serialRx[1..];
          inQueue.Put(ch);
          assert old(serialRx)[..i + 1] == old(serialRx)[..i] + [ch];
        }
      }
      assert inQueue.Contents == old(inQueue.Contents) + old(serialRx)[..n];
      assert serialRx == old(serialRx)[n..];
      var charCount := outQueue.Count();
      for i := 0 to charCount
        modifies this`serialTx, outQueue
        invariant Valid()
        invariant outQueue.Contents == old(outQueue.Contents)[i..]
        invariant serialTx == old(serialTx) + old(outQueue.Contents)[..i]
      {
        var ch := outQueue.Get();
        serialTx := serialTx + [ch];
        assert old(outQueue.Contents)[..i + 1] == old(outQueue.Contents)[..i] + [ch];
      }
      assert outQueue.Contents == [] && serialTx == old(serialTx) + old(outQueue.Contents);
    }

    /** The FILE_IO case of processQueues. */
    method ProcessFile(roomInQueue: int)
      requires Valid() && roomInQueue == Room(inQueue.Contents)
      modifies Repr()
      ensures Valid()
      ensures Model() == FileStep(old(Model()))
    {
      var charsAvailable := |forthFile|;
      if charsAvailable != 0 {
        var charCount := Min(roomInQueue, charsAvailable);
        for i := 0 to charCount
          modifies this`forthFile, inQueue, inQueue.elements
          invariant Valid()
          invariant inQueue.Contents == old(inQueue.Contents) + StripLF(old(forthFile)[..i])
          invariant forthFile == old(forthFile)[i..]
        {
          var ch := forthFile[0];
          forthFile := forthFile[1..];
          assert old(forthFile)[..i + 1] == old(forthFile)[..i] + [ch];
          StripLFAppend(old(forthFile)[..i], [ch]);
          if ch == LF {
            // Line feeds in the file are ignored.
            continue;
          }
          inQueue.Put(ch);
        }
      } else {
        FileHousekeeping();
      }
      // All output is thrown away while a file is loading.
      var charCount := outQueue.Count();
      for i := 0 to charCount
        modifies outQueue
        invariant Valid()
        invariant outQueue.Contents == old(outQueue.Contents)[i..]
      {
        var discarded := outQueue.Get();
      }
    }

    /** The NET_IO case of processQueues. */
    method ProcessNet(roomInQueue: int, incoming: Accept)
      requires Valid() && roomInQueue == Room(inQueue.Contents)
      modifies Repr()
      ensures Valid()
      ensures Model() == NetStep(old(Model()), incoming)
    {
      if !Connected(serverClient) {
        // Take a waiting connection, if any.
        serverClient := Accepted(incoming);
      }
      ghost var client := serverClient;
      ghost var n := Min(roomInQueue, |Received(client)|);
      var charsAvailable := |Received(serverClient)|;
      if charsAvailable != 0 {
        var charCount := Min(roomInQueue, charsAvailable);
        for i := 0 to charCount
          modifies this`serverClient, inQueue, inQueue.elements
          invariant Valid()
          invariant inQueue.Contents == old(inQueue.Contents) + client.rx[..i]
          invariant serverClient == client.(rx := client.rx[i..])
        {
          var ch := serverClient.rx[0];
          serverClient := serverClient.(rx := serverClient.rx[1..]);
          inQueue.Put(ch);
          assert client.rx[..i + 1] == client.rx[..i] + [ch];
        }
      }
      assert inQueue.Contents == old(inQueue.Contents) + Received(client)[..n];
      assert serverClient == Consumed(client, n);
      TransmitToClient();
    }

    /** The outgoing half of the NET_IO case: the whole output queue is
        written to the client, which drops it unless connected. */
    method TransmitToClient()
      requires Valid()
      modifies this`netTx, outQueue
      ensures Valid()
      ensures outQueue.Contents == [] && inQueue.Contents == old(inQueue.Contents)
      ensures netTx == if Connected(serverClient) then old(netTx) + old(outQueue.Contents) else old(netTx)
    {
      var charCount := outQueue.Count();
      for i := 0 to charCount
        invariant Valid()
        invariant outQueue.Contents == old(outQueue.Contents)[i..]
        invariant netTx == if Connected(serverClient) then old(netTx) + old(outQueue.Contents)[..i] else old(netTx)
      {
        var ch := outQueue.Get();
        // A client that is not connected drops what is written to it.
        if Connected(serverClient) {
          netTx := netTx + [ch];
        }
        assert old(outQueue.Contents)[..i + 1] == old(outQueue.Contents)[..i] + [ch];
      }
    }

    /** setFile: check the name's length, then ask the card to open it. */
    method SetFile(filename: seq<byte>) returns (ok: bool)
      requires Valid() && IsCString(filename)
      modifies this
      ensures Valid()
      ensures (ok, Model()) == DirectorSpec.SetFile(old(Model()), filename)
    {
      var len := |filename|;
      if len == 0 || len > 12 {
        // The required XXXXXXXX.YYY form is reported on the serial console.
        return false;
      }
      opens := opens + [filename];
      if filename !in card {
        // The failed open still replaces the file handle; the error is reported.
        forthFile := [];
        return false;
      }
      forthFile := card[filename];
      fileOpen := true;
      interruptedChannel := currentChannel;
      return true;
    }

    /** fileHousekeeping: end a file load, if one is open. */
    method FileHousekeeping()
      requires Valid()
      modifies this
      ensures Valid()
      ensures Model() == Housekeeping(old(Model()))
    {
      if fileOpen {
        forthFile := [];
        fileOpen := false;
        currentChannel := interruptedChannel;
      }
    }

    /** injectAutoRunFile: type the autorun command line into the input queue. */
    method InjectAutoRunFile()
      requires Valid()
      modifies Repr()
      ensures Valid()
      ensures Model() == DirectorSpec.InjectAutoRunFile(old(Model()))
    {
      var buffer := AUTORUN;
      var len := |buffer|;
      for i := 0 to len
        modifies inQueue, inQueue.elements
        invariant Valid()
        invariant inQueue.Contents == old(inQueue.Contents) + Fits(old(inQueue.Contents), buffer[..i])
      {
        FitsOneMore(old(inQueue.Contents), buffer, i);
        inQueue.Put(buffer[i]);
      }
      assert buffer[..len] == buffer;
      EnqueueAllKeepsWhatFits(old(inQueue.Contents), buffer);
    }

    /** selectChannel: switch channels, dropping a stale network client. */
    method SelectChannel(channel: Channel)
      requires Valid()
      modifies this
      ensures Valid()
      ensures Model() == DirectorSpec.SelectChannel(old(Model()), channel)
    {
      currentChannel := channel;
      if channel == NetIO {
        if serverClient.NoClient? || !serverClient.connected {
          if serverClient.Client? {
            serverClient := NoClient;
          }
        }
      }
    }

    /** available: poll once, then report the input queue's count. */
    method Available(incoming: Accept) returns (n: int)
      requires Valid()
      modifies Repr()
      ensures Valid()
      ensures (n, Model()) == DirectorSpec.Available(old(Model()), incoming)
    {
      ProcessQueues(incoming);
      n := inQueue.count;
    }

    /** read: one byte from the input queue, 0 when it is empty. */
    method Read() returns (ch: byte)
      requires Valid()
      modifies Repr()
      ensures Valid()
      ensures (ch, Model()) == DirectorSpec.Read(old(Model()))
    {
      ch := inQueue.Get();
    }

    /** write: one byte into the output queue. */
    method Write(ch: byte)
      requires Valid()
      modifies Repr()
      ensures Valid()
      ensures Model() == DirectorSpec.Write(old(Model()), ch)
    {
      outQueue.Put(ch);
    }

    /** printString: queue the string's bytes, poll once, return its length. */
    method PrintString(str: seq<byte>, incoming: Accept) returns (len: int)
      requires Valid() && IsCString(str)
      modifies Repr()
      ensures Valid()
      ensures (len, Model()) == DirectorSpec.PrintString(old(Model()), str, incoming)
    {
      len := |str|;
      for i := 0 to len
        modifies outQueue, outQueue.elements
        invariant Valid()
        invariant outQueue.Contents == old(outQueue.Contents) + Fits(old(outQueue.Contents), str[..i])
      {
        FitsOneMore(old(outQueue.Contents), str, i);
        outQueue.Put(str[i]);
      }
      assert str[..len] == str;
      EnqueueAllKeepsWhatFits(old(outQueue.Contents), str);
      ProcessQueues(incoming);
    }
  }
}
