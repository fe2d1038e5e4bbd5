/** The realtime voice client: the microphone's byte buffer that the audio callback fills
    and the sender drains in 100 ms frames, and the `response_active` flag that keeps the
    client from asking for a second response while one is under way. */
module RealtimeVoice {

  /** One byte of the 16-bit PCM stream. */
  type byte = x: int | 0 <= x < 256

  const Rate: nat := 24000
  /** 100 ms of audio: `RATE // 10` bytes. */
  const BufferSize: nat := Rate / 10

  // ===== The microphone =====

  class AsyncMicrophone {
    var buffer: seq<byte>
    var isRecording: bool
    /** Whether `self.stream` holds an opened input stream. */
    var streamOpen: bool
    /** How many input streams have been opened. */
    ghost var opens: nat
    /** Every byte the callback has appended, and every byte handed out by `GetAudioData`. */
    ghost var accepted: seq<byte>
    ghost var delivered: seq<byte>

    /** The buffer holds exactly the accepted bytes not yet delivered: first in, first out. */
    ghost predicate Valid()
      reads this
    {
      accepted == delivered + buffer
    }

    constructor ()
      ensures Valid()
      ensures buffer == [] && !isRecording && !streamOpen
      ensures accepted == [] && delivered == [] && opens == 0
    {
      buffer := [];
      isRecording := false;
      streamOpen := false;
      opens := 0;
      accepted := [];
      delivered := [];
    }

    /** The audio callback: appends the captured bytes only while recording. */
    method Callback(inData: seq<byte>)
      requires Valid()
      modifies this`buffer, this`accepted
      ensures Valid()
      ensures buffer == if isRecording then old(buffer) + inData else old(buffer)
      ensures accepted == if isRecording then old(accepted) + inData else old(accepted)
    {
      if isRecording {
        buffer := buffer + inData;
        accepted := accepted + inData;
      }
    }

    /** Opens an input stream if there is none, then records. */
    method StartRecording()
      requires Valid()
      modifies this`isRecording, this`streamOpen, this`opens
      ensures Valid()
      ensures isRecording && streamOpen
      ensures opens == if old(streamOpen) then old(opens) else old(opens) + 1
    {
      if !streamOpen {
        streamOpen := true;
        opens := opens + 1;
      }
      isRecording := true;
    }

    method StopRecording()
      requires Valid()
      modifies this`isRecording
      ensures Valid()
      ensures !isRecording
    {
      isRecording := false;
    }

    /** Removes and returns the first `BufferSize` bytes, once that many have arrived. */
    method GetAudioData() returns (data: seq<byte>)
      requires Valid() && |buffer| >= BufferSize
      modifies this`buffer, this`delivered
      ensures Valid()
      ensures |data| == BufferSize && old(buffer) == data + buffer
      ensures delivered == old(delivered) + data
      ensures delivered <= accepted
    {
      data, buffer := buffer[..BufferSize], buffer[BufferSize..];
      delivered := delivered + data;
    }
  }

  // ===== The websocket traffic and the response flag =====

  /** The client events the voice interface sends. */
  datatype ClientEvent =
    | SessionUpdate
    | ConversationItemCreate
    | AudioAppend(audio: seq<byte>)
    | AudioCommit
    | ResponseCreate

  /** The server events `handle_event` distinguishes; `OtherEvent` is any other type. */
  datatype ServerEvent =
    | TextDelta(delta: string)
    | AudioDelta(audio: seq<byte>)
    | ResponseDone
    | ErrorEvent(message: string)
    | SpeechStopped
    | OtherEvent(kind: string)

  /** One message on the websocket, in either direction. */
  datatype Wire = Sent(client: ClientEvent) | Received(server: ServerEvent)

  /** A `response.create` has been sent since the last `response.done` arrived. */
  function Pending(trace: seq<Wire>): bool {
    if trace == [] then false
    else if trace[|trace| - 1] == Sent(ResponseCreate) then true
    else if trace[|trace| - 1] == Received(ResponseDone) then false
    else Pending(trace[..|trace| - 1])
  }

  /** Between any two `response.create` sends a `response.done` arrived. */
  ghost predicate NoDoubleCreate(trace: seq<Wire>) {
    forall i, j :: 0 <= i < j < |trace| && trace[i] == Sent(ResponseCreate) && trace[j] == Sent(ResponseCreate) ==>
      exists k :: i < k < j && trace[k] == Received(ResponseDone)
  }

  /** With no response pending, every earlier `response.create` was answered. */
  lemma {:induction false} AnsweredWhenNotPending(trace: seq<Wire>, i: nat)
    requires !Pending(trace) && i < |trace| && trace[i] == Sent(ResponseCreate)
    ensures exists k :: i < k < |trace| && trace[k] == Received(ResponseDone)
  {
    var n := |trace| - 1;
    if trace[n] != Received(ResponseDone) {
      var init := trace[..n];
      assert i < n && init[i] == trace[i];
      AnsweredWhenNotPending(init, i);
      var k :| i < k < |init| && init[k] == Received(ResponseDone);
      assert trace[k] == init[k];
    }
  }

  /** Sending `response.create` only when none is pending keeps the protocol. */
  lemma NoDoubleCreateExtend(trace: seq<Wire>, w: Wire)
    requires NoDoubleCreate(trace)
    requires w == Sent(ResponseCreate) ==> !Pending(trace)
    ensures NoDoubleCreate(trace + [w])
  {
    var t := trace + [w];
    forall i, j | 0 <= i < j < |t| && t[i] == Sent(ResponseCreate) && t[j] == Sent(ResponseCreate)
      ensures exists k :: i < k < j && t[k] == Received(ResponseDone)
    {
      assert t[i] == trace[i];
      if j < |trace| {
        assert t[j] == trace[j];
        var k :| i < k < j && trace[k] == Received(ResponseDone);
        assert t[k] == trace[k];
      } else {
        AnsweredWhenNotPending(trace, i);
        var k :| i < k < |trace| && trace[k] == Received(ResponseDone);
        assert t[k] == trace[k];
      }
    }
  }

  /** Appending one message updates `Pending` the way the flag is updated. */
  lemma PendingExtend(trace: seq<Wire>, w: Wire)
    ensures Pending(trace + [w]) ==
      if w == Sent(ResponseCreate) then true
      else if w == Received(ResponseDone) then false
      else Pending(trace)
  {
    assert (trace + [w])[..|trace|] == trace;
  }

  class VoiceInterface {
    const mic: AsyncMicrophone
    /** The audio handed to the player, one entry per `response.audio.delta`. */
    var played: seq<seq<byte>>
    var responseActive: bool
    /** The websocket traffic so far, in order. */
    var trace: seq<Wire>

    ghost predicate Valid()
      reads this, mic
    {
      mic.Valid()
    }

    /** The flag says whether a response is pending, and no response was ever requested
        twice without an answer. */
    ghost predicate ResponseProtocol()
      reads this
    {
      responseActive == Pending(trace) && NoDoubleCreate(trace)
    }

    constructor ()
      ensures Valid() && fresh(mic)
      ensures mic.buffer == [] && !mic.isRecording && !mic.streamOpen
      ensures played == [] && !responseActive && trace == []
      ensures ResponseProtocol()
    {
      mic := new AsyncMicrophone();
      played := [];
      responseActive := false;
      trace := [];
    }

    /** `initialize_session`: sends the `session.update`. */
    method InitializeSession()
      modifies this`trace
      ensures trace == old(trace) + [Sent(SessionUpdate)]
      ensures old(ResponseProtocol()) ==> ResponseProtocol()
    {
      Send(SessionUpdate);
    }

    /** `send_initial_greeting` as written: asks for a response without raising the flag. */
    method SendInitialGreetingAsWritten()
      modifies this`trace
      ensures trace == old(trace) + [Sent(ConversationItemCreate), Sent(ResponseCreate)]
    {
      trace := trace + [Sent(ConversationItemCreate)];
      trace := trace + [Sent(ResponseCreate)];
    }

    /** `send_initial_greeting` corrected: the response it asks for raises the flag, like
        the one `handle_speech_stopped` asks for. */
    method SendInitialGreeting()
      modifies this`trace, this`responseActive
      ensures trace == old(trace) + [Sent(ConversationItemCreate), Sent(ResponseCreate)]
      ensures responseActive
      ensures old(ResponseProtocol()) && !old(responseActive) ==> ResponseProtocol()
    {
      Send(ConversationItemCreate);
      Send(ResponseCreate);
      responseActive := true;
    }

    /** Appends one client event to the websocket, keeping the protocol when it is not a
        `response.create` or none is pending. */
    method Send(e: ClientEvent)
      modifies this`trace
      ensures trace == old(trace) + [Sent(e)]
      ensures Pending(trace) == (e == ResponseCreate || old(Pending(trace)))
      ensures old(NoDoubleCreate(trace)) && (e == ResponseCreate ==> !old(Pending(trace))) ==> NoDoubleCreate(trace)
    {
      PendingExtend(trace, Sent(e));
      if NoDoubleCreate(trace) && (e == ResponseCreate ==> !Pending(trace)) {
        NoDoubleCreateExtend(trace, Sent(e));
      }
      trace := trace + [Sent(e)];
    }

    /** One round of `process_audio`: the next 100 ms frame goes out as
        `input_audio_buffer.append`. */
    method SendAudioFrame()
      requires Valid() && |mic.buffer| >= BufferSize
      modifies mic`buffer, mic`delivered, this`trace
      ensures Valid()
      ensures mic.buffer == old(mic.buffer)[BufferSize..]
      ensures trace == old(trace) + [Sent(AudioAppend(old(mic.buffer)[..BufferSize]))]
      ensures mic.delivered == old(mic.delivered) + old(mic.buffer)[..BufferSize]
      ensures old(ResponseProtocol()) ==> ResponseProtocol()
    {
      var data := mic.GetAudioData();
      Send(AudioAppend(data));
    }

    /** `handle_event`: the event is received, then acted on by its type. */
    method HandleEvent(event: ServerEvent)
      modifies this`trace, this`played, this`responseActive
      ensures played == if event.AudioDelta? then old(played) + [event.audio] else old(played)
      ensures event.ResponseDone? ==> trace == old(trace) + [Received(event)] && !responseActive
      ensures event.SpeechStopped? ==>
        trace == old(trace) + [Received(event)] +
          (if |mic.buffer| > 0 then [Sent(AudioCommit)] + (if old(responseActive) then [] else [Sent(ResponseCreate)]) else [])
        && responseActive == (old(responseActive) || |mic.buffer| > 0)
      ensures !event.ResponseDone? && !event.SpeechStopped? ==>
        trace == old(trace) + [Received(event)] && responseActive == old(responseActive)
      ensures old(ResponseProtocol()) ==> ResponseProtocol()
    {
      PendingExtend(trace, Received(event));
      if NoDoubleCreate(trace) {
        NoDoubleCreateExtend(trace, Received(event));
      }
      trace := trace + [Received(event)];
      match event
      case TextDelta(_) =>
      case AudioDelta(audio) =>
        played := played + [audio];
      case ResponseDone =>
        responseActive := false;
      case ErrorEvent(_) =>
      case SpeechStopped =>
        HandleSpeechStopped();
      case OtherEvent(_) =>
    }

    /** `handle_speech_stopped`: with audio buffered, commits it and asks for a response
        unless one is already under way. */
    method HandleSpeechStopped()
      modifies this`trace, this`responseActive
      ensures |mic.buffer| == 0 ==> trace == old(trace) && responseActive == old(responseActive)
      ensures |mic.buffer| > 0 ==>
        trace == old(trace) + [Sent(AudioCommit)] + (if old(responseActive) then [] else [Sent(ResponseCreate)])
        && responseActive
      ensures old(ResponseProtocol()) ==> ResponseProtocol()
    {
      if |mic.buffer| > 0 {
        Send(AudioCommit);
        if !responseActive {
          Send(ResponseCreate);
          responseActive := true;
        }
      }
    }
  }

  /** The session as `run` starts it, as written: the greeting's response is still under
      way when the user stops speaking, and a second `response.create` goes out. */
  method GreetingThenSpeechAsWritten() returns (trace: seq<Wire>)
    ensures !NoDoubleCreate(trace)
  {
    var voice := new VoiceInterface();
    voice.InitializeSession();
    voice.SendInitialGreetingAsWritten();
    voice.mic.StartRecording();
    voice.mic.Callback([0, 0]);
    voice.HandleEvent(SpeechStopped);
    trace := voice.trace;
    assert trace == [Sent(SessionUpdate), Sent(ConversationItemCreate), Sent(ResponseCreate),
      Received(SpeechStopped), Sent(AudioCommit), Sent(ResponseCreate)];
    assert !(exists k :: 2 < k < 5 && trace[k] == Received(ResponseDone));
    assert !(0 <= 2 < 5 < |trace| && trace[2] == Sent(ResponseCreate) && trace[5] == Sent(ResponseCreate) ==>
      exists k :: 2 < k < 5 && trace[k] == Received(ResponseDone));
  }

  /** The same session with the corrected greeting: speech that stops while the greeting's
      response is under way is only committed, without a `response.create`; the next
      `response.create` goes out at the first speech stop after `response.done`. */
  method GreetingThenSpeech() returns (trace: seq<Wire>)
    ensures NoDoubleCreate(trace)
    ensures trace == [Sent(SessionUpdate), Sent(ConversationItemCreate), Sent(ResponseCreate),
      Received(SpeechStopped), Sent(AudioCommit), Received(ResponseDone),
      Received(SpeechStopped), Sent(AudioCommit), Sent(ResponseCreate)]
  {
    var voice := new VoiceInterface();
    voice.InitializeSession();
    voice.SendInitialGreeting();
    voice.mic.StartRecording();
    voice.mic.Callback([0, 0]);
    voice.HandleEvent(SpeechStopped);
    voice.HandleEvent(ResponseDone);
    voice.HandleEvent(SpeechStopped);
    trace := voice.trace;
  }
}
