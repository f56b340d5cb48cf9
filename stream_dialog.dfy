/** The help conversation of the sidebar webview: `handleStreamedResponse`
    collects the streamed answer chunks in `responseBuffer` and retypes the
    whole buffer after each chunk; the submit button sends a feature request
    only for input that is not blank. */
module StreamDialog {
  import opened JsStrings
  import opened Typewriter

  datatype Option<T> = None | Some(value: T)

  const StartMarker: string := "Startstreaming"
  const EndMarker: string := "Endstreaming"

  predicate IsMarker(data: string) {
    data == StartMarker || data == EndMarker
  }

  /** The state of one installed handler: its closure variables
      `responseBuffer` and `isStreaming`, and the dialog it types into. */
  datatype Session = Session(buffer: string, streaming: bool, dialog: Dialog)

  /** The handler `handleStreamedResponse` installs, before any message. */
  function Fresh(dialog: Dialog): Session {
    Session("", false, dialog)
  }

  /** One `onmessage` call with the chunk `data`. */
  function AfterMessage(s: Session, data: string, period: CuePeriod): Session {
    if data == StartMarker then
      s.(buffer := "", dialog := s.dialog.(shown := ""))
    else if data == EndMarker then
      s.(streaming := false)
    else if s.buffer == "" then
      s.(buffer := data, dialog := AfterTypeDialog(s.dialog.(shown := ""), data, false, period))
    else
      var buffer := s.buffer + data;
      s.(buffer := buffer, dialog := AfterTypeDialog(s.dialog.(pending := false, shown := ""), buffer, false, period))
  }

  /** The messages `chunks`, one after the other. */
  function AfterMessages(s: Session, chunks: seq<string>, period: CuePeriod): Session
    decreases |chunks|
  {
    if |chunks| == 0 then s
    else AfterMessages(AfterMessage(s, chunks[0], period), chunks[1..], period)
  }

  /** A chunk that is not a marker, in either branch of the handler, extends
      the buffer by the chunk and restarts the typing effect on the whole
      buffer; the text typed is the buffer, and the state is consistent. */
  lemma ChunkRetypesBuffer(s: Session, data: string, period: CuePeriod)
    requires !IsMarker(data)
    ensures var r := AfterMessage(s, data, period);
      r.buffer == s.buffer + data && r.streaming == s.streaming &&
      r.dialog == AfterTypeDialog(s.dialog, s.buffer + data, false, period) &&
      r.dialog.text == r.buffer && Consistent(r.dialog)
  {
    if s.buffer == "" {
      assert s.buffer + data == data;
    }
    TypeDialogConsistent(s.dialog, s.buffer + data, false, period);
  }

  /** The two markers start no typing pass: `Startstreaming` empties the
      buffer and the dialog, `Endstreaming` only clears `isStreaming`; the
      text being typed, the index and the scheduled step stay as they were. */
  lemma MarkersStartNoPass(s: Session, data: string, period: CuePeriod)
    requires IsMarker(data)
    ensures var r := AfterMessage(s, data, period);
      r.dialog.text == s.dialog.text && r.dialog.index == s.dialog.index &&
      r.dialog.pending == s.dialog.pending && r.dialog.sounds == s.dialog.sounds &&
      (data == StartMarker ==> r.buffer == "" && r.dialog.shown == "" && r.streaming == s.streaming) &&
      (data == EndMarker ==> r.buffer == s.buffer && r.dialog == s.dialog && !r.streaming)
  {
  }

  /** `Startstreaming` does not cancel the typing in progress: when a step
      is scheduled, the next timer step writes the next character of the
      old text into the emptied dialog. */
  lemma StartDoesNotCancel(s: Session, period: CuePeriod)
    requires s.dialog.pending && s.dialog.index < |s.dialog.text|
    ensures var r := AfterMessage(s, StartMarker, period);
      r.buffer == "" && AfterTimer(r.dialog, period).shown == [s.dialog.text[s.dialog.index]]
  {
  }

  /** Chunks that are not markers accumulate: the buffer is the old buffer
      followed by all of them, and the dialog is retyping the whole buffer. */
  lemma {:induction false} ChunksAccumulate(s: Session, chunks: seq<string>, period: CuePeriod)
    requires forall i :: 0 <= i < |chunks| ==> !IsMarker(chunks[i])
    ensures AfterMessages(s, chunks, period).buffer == s.buffer + Flatten(chunks)
    ensures |chunks| > 0 ==> AfterMessages(s, chunks, period).dialog.text == s.buffer + Flatten(chunks)
    decreases |chunks|
  {
    if |chunks| > 0 {
      var s1 := AfterMessage(s, chunks[0], period);
      ChunkRetypesBuffer(s, chunks[0], period);
      ChunksAccumulate(s1, chunks[1..], period);
      FlattenFront(chunks);
    }
  }

  /** After `Startstreaming` and chunks that are not markers, the buffer
      holds exactly those chunks, in order. */
  lemma StartThenChunks(s: Session, chunks: seq<string>, period: CuePeriod)
    requires forall i :: 0 <= i < |chunks| ==> !IsMarker(chunks[i])
    ensures AfterMessages(s, [StartMarker] + chunks, period).buffer == Flatten(chunks)
  {
    assert ([StartMarker] + chunks)[1..] == chunks;
    ChunksAccumulate(AfterMessage(s, StartMarker, period), chunks, period);
  }

  /** Left alone after a chunk, the dialog ends up showing the whole buffer. */
  lemma ChunkShownInFull(s: Session, data: string, period: CuePeriod)
    requires !IsMarker(data)
    ensures var r := AfterMessage(s, data, period);
      var e := AfterTimers(r.dialog, |r.buffer|, period);
      e.shown == r.buffer && !e.playing && !e.pending
  {
    ChunkRetypesBuffer(s, data, period);
    FullPass(s.dialog, s.buffer + data, false, period);
  }

  /** A whole session: after `Startstreaming`, `Hello`, ` world` and
      `Endstreaming`, the buffer holds `Hello world`, the stream is marked
      ended, and the dialog, left to its timer, shows `Hello world`. */
  lemma HelloWorldSession(s: Session, period: CuePeriod)
    ensures var e := AfterMessages(s, [StartMarker, "Hello", " world", EndMarker], period);
      e.buffer == "Hello world" && !e.streaming &&
      AfterTimers(e.dialog, |e.buffer|, period).shown == "Hello world"
  {
    var chunks := [StartMarker, "Hello", " world", EndMarker];
    var s1 := AfterMessage(s, StartMarker, period);
    var s2 := AfterMessage(s1, "Hello", period);
    var s3 := AfterMessage(s2, " world", period);
    var s4 := AfterMessage(s3, EndMarker, period);
    assert chunks[1..] == ["Hello", " world", EndMarker];
    assert chunks[1..][1..] == [" world", EndMarker];
    assert chunks[1..][1..][1..] == [EndMarker];
    assert AfterMessages(s, chunks, period) == AfterMessages(s1, chunks[1..], period);
    assert AfterMessages(s1, chunks[1..], period) == AfterMessages(s2, chunks[1..][1..], period);
    assert AfterMessages(s2, chunks[1..][1..], period) == AfterMessages(s3, [EndMarker], period);
    assert AfterMessages(s3, [EndMarker], period) == AfterMessages(s4, [EndMarker][1..], period);
    assert [EndMarker][1..] == [];
    ChunkRetypesBuffer(s1, "Hello", period);
    ChunkRetypesBuffer(s2, " world", period);
    assert s3.buffer == "Hello world";
    ChunkShownInFull(s2, " world", period);
  }

  /** The message the submit button sends over the socket. */
  datatype FeatureRequest = FeatureRequest(message: string, code: string)

  /** The submit button: for input that is not blank, the request carrying
      the input and the current editor code, and a fresh handler typing into
      the emptied dialog; for blank input, nothing. */
  function SubmitFeature(featureInput: string, editorCode: string, dialog: Dialog): (r: Option<(FeatureRequest, Session)>)
    ensures r.Some? <==> exists i :: 0 <= i < |featureInput| && !IsJsWhitespace(featureInput[i])
    ensures r.Some? ==> r.value == (FeatureRequest(featureInput, editorCode), Fresh(dialog.(shown := "")))
  {
    TrimEmptyIffBlank(featureInput);
    if Trim(featureInput) != "" then Some((FeatureRequest(featureInput, editorCode), Fresh(dialog.(shown := ""))))
    else None
  }

  /** The closure `handleStreamedResponse` installs as the socket's
      `onmessage` handler, typing into the sidebar's dialog. */
  class HelpStream {
    var responseBuffer: string
    var isStreaming: bool
    const webview: DialogWebview

    function State(): Session
      reads this, webview
    {
      Session(responseBuffer, isStreaming, webview.State())
    }

    constructor (webview: DialogWebview)
      ensures this.webview == webview && State() == Fresh(webview.State())
    {
      this.webview := webview;
      responseBuffer, isStreaming := "", false;
    }

    /** `helpSocket.onmessage`. */
    method OnMessage(data: string)
      modifies this, webview
      ensures State() == AfterMessage(old(State()), data, webview.cuePeriod)
    {
      if data == StartMarker {
        responseBuffer := "";
        webview.ClearDialog();
        return;
      }
      if data == EndMarker {
        isStreaming := false;
        return;
      }
      if responseBuffer == "" {
        webview.ClearDialog();
        responseBuffer := data;
        webview.TypeDialog(responseBuffer, false);
      } else {
        responseBuffer := responseBuffer + data;
        if webview.pending {
          webview.CancelStep();
        }
        webview.ClearDialog();
        webview.TypeDialog(responseBuffer, false);
      }
    }
  }
}
