# IODirector model

A Dafny model of the input/output director of Yaffa Forth for the ESP8266 (`IODirector.h`). The
director has two fixed-capacity circular byte queues of 2048 bytes each: an input queue the
interpreter reads from and an output queue it writes to. It has three channels: the USB serial
port, a file being loaded from the SD card, and a telnet client on the network. Each polling step
(`processQueues`) moves bytes between the current channel and the queues. File loading interrupts
the current channel and restores it when the file ends.

The project has three modules:

- `CircularQueue` (`circular_queue.dfy`) covers `queue_t` and its operations. The class `Queue`
  holds the flat `array<byte>`, `start` and `count`. A ghost `Contents` sequence gives the
  oldest-first view. `Put` and `Get` are proved against the sequence-level `Enqueue`/`Dequeue`.
  Lemmas state what a run of puts and a run of gets do, and the FIFO property.
- `DirectorSpec` (`director_spec.dfy`) gives the meaning of each director operation as a function
  on a `State` value. That value holds both queue contents, the channel and file-session fields,
  and the transports. The properties of the polling step and of the file session are proved here.
- `Director` (`io_director.dfy`) is the class `IODirector`: the two queues, the fields
  `fileOpen`, `currentChannel` and `interruptedChannel`, and the transports. Each method runs the
  source's loops of `put`/`get`. Its contract says that its effect on `Model()` is exactly that
  of the matching `DirectorSpec` function, so every property proved there holds of the methods.

The transports are byte streams, not the Arduino/ESP8266 peripherals:

- The serial port is `serialRx`, the bytes received and not yet read; `Serial.available()` is its
  length. Everything written to the port goes to `serialTx`.
- The open file is `forthFile`, its unread bytes; `forthFile.available()` is their number. A
  closed or failed handle has none.
- The SD card is a map from file name to content. The ghost `opens` logs every name passed to
  `SD.open`, so "rejected before any open attempt" can be stated.
- The network client `serverClient` is `NoClient` or `Client(connected, rx)`. Everything written
  to a connected client goes to `netTx`. A client that is not connected drops what it is given.
- What `server.available()` returns during a step is a parameter (`Accept`): no waiting
  connection, or a new connected client with the bytes it has already received. The methods
  that poll (`ProcessQueues`, `Available`, `PrintString`) take it.
- The transport fields may be changed by the environment between calls: bytes arrive, a client
  disconnects.

Modelling decisions:

- A C string argument is its bytes up to the terminator. `IsCString` requires that the bytes
  hold no NUL, so `strlen` is the length.
- The constructor leaves `interruptedChannel` unset. The model starts it at `SERIAL_IO`, and
  the choice is never observed: `fileHousekeeping` reads the field only while `fileOpen` holds
  (IODirector.h:157-163), and only a successful `setFile` sets `fileOpen`, writing
  `interruptedChannel` at the same time (IODirector.h:147-150).
- The truth value of the client handle (`!serverClient` in `selectChannel`) is modelled as "a
  client object is present".
- Two behaviours of the code are easy to miss, and the model follows the code:
  - A failed `SD.open` in `setFile` still replaces the file handle. The unread bytes of a file
    that was already open are lost. Only `fileOpen` and the channels are left alone.
  - The saved channel is one level deep. A second `setFile` while a file loads saves `FILE_IO`
    as the interrupted channel. When the inner file ends, the director stays on the file channel
    with no file open, and no later step moves input. `NestedLoadStaysOnFileChannel` states this.

## Model

| member | source | states |
|---|---|---|
| CircularQueue.Queue.Init | IODirector.h:303-307 | a new queue has capacity QUEUE_SIZE (2048), start 0 and count 0, and is empty |
| CircularQueue.Queue.Full | IODirector.h:310-312 | true exactly when the queue holds QUEUE_SIZE bytes, i.e. has no room |
| CircularQueue.Queue.Empty | IODirector.h:315-317 | true exactly when the queue holds no bytes |
| CircularQueue.Queue.RoomLeft | IODirector.h:320-322 | the room is size minus count, between 0 and QUEUE_SIZE |
| CircularQueue.Queue.Count | IODirector.h:325-327 | the count is the number of bytes held, at most QUEUE_SIZE |
| CircularQueue.Queue.Put | IODirector.h:330-341 | keeps the invariant 0 <= start < size, 0 <= count <= size; on a non-full queue stores the byte at (start+count) mod size, increments count, leaves every other slot alone, and appends the byte to the contents; on a full queue changes nothing |
| CircularQueue.Queue.Get | IODirector.h:344-358 | keeps the invariant; on a non-empty queue returns elements[start] (the oldest byte), advances start modulo size, decrements count and drops the head of the contents; on an empty queue returns 0 and changes nothing |
| CircularQueue.EnqueueAllKeepsWhatFits | IODirector.h:276-279 | a run of puts stores exactly the first min(length, room) bytes in order after what was held and drops the rest; the queue never exceeds its capacity |
| CircularQueue.DequeueAllTakesPrefix | IODirector.h:344-358 | n gets return the first n bytes in order and leave the rest; gets past the end return the sentinel 0 and leave the queue empty |
| CircularQueue.FifoOrder | IODirector.h:295-358 | if the puts do not exceed the capacity, gets return the bytes in the order they were put, and the count afterwards is puts minus gets |
| DirectorSpec.StripLF | IODirector.h:84-91 | file input keeps no line feed (0x0A), is never longer than what was read, and equals it when it holds no line feed |
| DirectorSpec.StripLFAppend | IODirector.h:84-91 | filtering the bytes read so far and then one more byte is filtering the whole |
| DirectorSpec.StripLFKeepsOtherBytes | IODirector.h:84-91 | every byte other than a line feed is kept, as often as it occurs |
| DirectorSpec.FileInputDropsLineFeeds | IODirector.h:84-91 | loading the bytes "A\r\n B" queues "A\r B" |
| DirectorSpec.Step | IODirector.h:54-124 | a polling step never lets either queue exceed its capacity |
| DirectorSpec.StepOnSerial | IODirector.h:62-76 | on the serial channel the input queue gains exactly min(room, available) received bytes, in order, with none lost or duplicated; the whole output queue reaches the serial port in FIFO order and the queue ends empty; nothing else changes |
| DirectorSpec.StepOnFileWithData | IODirector.h:78-91 | with file bytes available the step consumes min(room, available) of them and queues exactly those that are not 0x0A, in order, growing the input queue by at most that much; output is emptied and reaches no transport |
| DirectorSpec.StepOnFileAtEnd | IODirector.h:92-99 | with no file bytes available the step is fileHousekeeping followed by discarding the output queue |
| DirectorSpec.FileStepKeepsSession | IODirector.h:78-91 | a file step that still has bytes keeps the channel, the open flag and the saved channel |
| DirectorSpec.StepOnNetwork | IODirector.h:103-122 | on the network channel a connected client is kept and otherwise the server's offer is taken; the input queue gains min(room, available) of that client's bytes, in order, with none lost or duplicated; the whole output queue goes to the client when connected and is dropped otherwise; the output queue ends empty |
| DirectorSpec.StepKeepsConnectedClient | IODirector.h:104-107 | with a connected client the step does not poll the server at all |
| DirectorSpec.HousekeepingIdempotent | IODirector.h:156-165 | calling fileHousekeeping twice equals calling it once, and afterwards no file is open |
| DirectorSpec.SetFileRejectsBadName | IODirector.h:131-135 | a name of length 0 or more than 12 is refused with no call to the card and no change at all |
| DirectorSpec.SetFileRejectsExamples | IODirector.h:131-135 | "TOOLONGNAME.FRT" and "" are refused without any change |
| DirectorSpec.SetFileOutcome | IODirector.h:137-151 | with a valid name the card is opened once; the call succeeds exactly when the card holds the file; a failure leaves fileOpen and the channels alone; a success sets fileOpen, saves the current channel as the interrupted one and does not change the current channel |
| DirectorSpec.LoadDeliversWholeFile | IODirector.h:78-91 | when the interpreter takes all queued input before each polling step, a file load hands it the input already queued and then the whole file in order without its line feeds, and the step at end of file closes the file and restores the saved channel |
| DirectorSpec.FileLoadEndToEnd | IODirector.h:129-165 | after a successful setFile and a switch to the file channel, loading delivers the pending input and then the card's file without line feeds, closes it and returns to the channel that was current before setFile |
| DirectorSpec.NestedLoadStaysOnFileChannel | IODirector.h:129-165 | a setFile during a file load saves FILE_IO, so after the inner file ends the director is on the file channel with no file open and every later step only discards output |
| DirectorSpec.SelectChannelEffect | IODirector.h:183-196 | the current channel becomes the one requested; only a switch to the network touches the client, and only to drop one that has lost its connection |
| DirectorSpec.WriteQueuesByte | IODirector.h:210-212 | write appends the byte to the output queue, or drops it when the queue is full |
| DirectorSpec.ReadTakesOldest | IODirector.h:205-207 | read returns and removes the oldest input byte, or returns 0 and changes nothing when there is none |
| DirectorSpec.PrintStringQueuesWhatFits | IODirector.h:275-282 | on any channel printString puts the bytes of the string that fit after the pending output, in order, then polls once, and returns the full string length even if bytes were dropped |
| DirectorSpec.PrintStringOnSerial | IODirector.h:275-282 | printString returns the full string length even if bytes were dropped; on the serial channel the bytes that fit follow the pending output to the port, in order, and the output queue ends empty |
| DirectorSpec.PrintStringExample | IODirector.h:275-282 | printString("42") with an empty output queue on the serial channel sends '4' then '2' to the serial port |
| DirectorSpec.InjectAutoRunFileQueuesCommand | IODirector.h:168-179 | the autorun command line is queued after the pending input, cut short only by lack of room; nothing else changes |
| DirectorSpec.AutorunText | IODirector.h:172 | the injected bytes spell "load autorun.frt" followed by a carriage return |
| DirectorSpec.AvailableCountsInput | IODirector.h:199-202 | available reports the input queue's count after one polling step, never less than before the step |
| Director.IODirector.constructor | IODirector.h:41-51 | both queues start empty, no file is open and the channel is serial |
| Director.IODirector.ProcessQueues | IODirector.h:54-124 | the step's effect on the director is exactly Step |
| Director.IODirector.ProcessSerial | IODirector.h:62-76 | the serial case's loops of put and get have exactly the effect of SerialStep |
| Director.IODirector.ProcessFile | IODirector.h:78-101 | the file case's filtered put loop, or housekeeping, followed by the discarding get loop, has exactly the effect of FileStep |
| Director.IODirector.ProcessNet | IODirector.h:103-122 | the network case's accept, put loop and transmission have exactly the effect of NetStep |
| Director.IODirector.TransmitToClient | IODirector.h:117-121 | the get loop empties the output queue into the client's sink, in order, when connected, and drops it otherwise |
| Director.IODirector.SetFile | IODirector.h:129-152 | the result and the new state are exactly those of SetFile |
| Director.IODirector.FileHousekeeping | IODirector.h:156-165 | the new state is exactly that of Housekeeping |
| Director.IODirector.InjectAutoRunFile | IODirector.h:168-179 | the put loop leaves the state exactly as InjectAutoRunFile |
| Director.IODirector.SelectChannel | IODirector.h:183-196 | the new state is exactly that of SelectChannel |
| Director.IODirector.Available | IODirector.h:199-202 | the result and the new state are exactly those of Available |
| Director.IODirector.Read | IODirector.h:205-207 | the byte and the new state are exactly those of Read |
| Director.IODirector.Write | IODirector.h:210-212 | the new state is exactly that of Write |
| Director.IODirector.PrintString | IODirector.h:275-282 | the put loop and the step return the length and leave the state exactly as PrintString |

## Left out

- `printInt` and `printUInt` (IODirector.h:215-272) are left out. Their work is `itoa`/`sprintf` formatting, which is outside this model. Their put-then-poll tail is the same as `printString`'s.
- The Arduino/ESP8266 peripherals (`Serial`, `SD`, `File`, `WiFiServer`, `WiFiClient`) are byte sequences, a map and a flag, as described above. Buffering inside the peripherals, timing, and what the remote end does are not modelled.
- `SD.open` is a lookup in the card map. FAT case-insensitivity, directories and paths are not modelled.
- The diagnostic messages ("Queue full", "Queue empty", the filename and open errors) are console output. The model has comments where they are printed and no other trace of them.
- When a second `setFile` replaces an open file handle, the old handle is never closed. The model keeps no resource state for handles, so this leak is not modelled; only the loss of its unread bytes is.
- Builds without `HAS_SD_CARD` (no file channel, no `setFile`/`fileHousekeeping`/`injectAutoRunFile`) are not modelled; the model is the file-enabled build.
- `SERVER_PORT` and bringing up the listener are outside the model.
- Queue counts stay within 0..2048, so 32-bit `int` overflow cannot occur and is not modelled. A C `char` is modelled as its 8-bit pattern (`byte`), so its signedness does not matter.
- The cadence of polling and the scheduler are not modelled. The code is single-threaded and each operation is one atomic step of the model.
