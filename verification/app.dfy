/**
 * The page's state and its handlers: asking for code (with the blank-prompt
 * guard), receiving the reply or the error, and handing the code to the
 * online viewer. The request itself is a parameter: its reply is whatever
 * `Finish` is given.
 */
module App {
  import opened Wrappers
  import opened Text
  import opened Links

  /** The component's state hooks. */
  datatype State = State(prompt: string, cadCode: string, loading: bool, error: string, renderUrl: string)

  const Initial: State := State("", "", false, "", "")

  const PromptMissing: string := "Please enter a prompt"
  const NothingToRender: string := "No OpenSCAD code to render"
  const GenerateFailed: string := "Error generating CAD code: "

  /** Typing in the text area. */
  function EditPrompt(st: State, p: string): State {
    st.(prompt := p)
  }

  /**
   * The synchronous part of the generate handler: a prompt that trims to
   * nothing only sets an error; otherwise loading starts, the error is
   * cleared and a request goes out (the second result).
   */
  function StartGenerate(st: State): (r: (State, bool))
    ensures !r.1 <==> Trim(Ecma, st.prompt) == []
    ensures !r.1 ==> r.0 == st.(error := PromptMissing)
    ensures r.1 ==> r.0 == st.(loading := true, error := "")
  {
    TrimEmptyIffBlank(Ecma, st.prompt);
    if AllSpace(Ecma, st.prompt) then (st.(error := PromptMissing), false)
    else (st.(loading := true, error := ""), true)
  }

  /** How the request ended: the code in the reply, or an error with an optional server detail and a message. */
  datatype Reply = Code(code: string) | Failed(detail: Option<string>, message: string)

  /** `err.response?.data?.detail || err.message`: an absent or empty detail falls back to the message. */
  function Reason(detail: Option<string>, message: string): (r: string)
    ensures detail.Some? && detail.value != [] ==> r == detail.value
    ensures detail.None? || detail.value == [] ==> r == message
  {
    if detail.Some? && detail.value != [] then detail.value else message
  }

  /** The asynchronous part of the generate handler, and its `finally`. */
  function Finish(st: State, reply: Reply): (r: State)
    ensures !r.loading && r.prompt == st.prompt
    ensures reply.Code? ==> r.cadCode == reply.code && r.renderUrl == [] && r.error == st.error
    ensures reply.Failed? ==> r.cadCode == st.cadCode && r.renderUrl == st.renderUrl
    ensures reply.Failed? ==> r.error == GenerateFailed + Reason(reply.detail, reply.message)
  {
    match reply
    case Code(code) => st.(cadCode := code, renderUrl := [], loading := false)
    case Failed(detail, message) =>
      st.(error := GenerateFailed + Reason(detail, message), loading := false)
  }

  /** The render handler: without code it only sets an error; with code the frame gets the viewer address. */
  function Render(st: State): (r: State)
    ensures st.cadCode == [] ==> r == st.(error := NothingToRender)
    ensures st.cadCode != [] ==> r == st.(renderUrl := ViewerUrl(st.cadCode))
    ensures st.cadCode != [] ==> ScriptOf(r.renderUrl) == Some(st.cadCode)
  {
    if st.cadCode == [] then st.(error := NothingToRender)
    else
      ViewerUrlCarriesCode(st.cadCode);
      st.(renderUrl := ViewerUrl(st.cadCode))
  }

  /** The download link of the code on show. */
  function Download(st: State): (r: string)
    ensures DocumentText(r) == Some(st.cadCode)
  {
    DownloadHrefCarriesCode(st.cadCode);
    DownloadHref(st.cadCode)
  }

  /** The frame never shows stale code: it is empty, or it shows the code on the page. */
  predicate Fresh(st: State) {
    st.renderUrl == [] || st.renderUrl == ViewerUrl(st.cadCode)
  }

  /** What can happen to the page. */
  datatype Event = Typed(text: string) | GenerateClicked | Replied(reply: Reply) | RenderClicked

  function Step(st: State, e: Event): State {
    match e
    case Typed(text) => EditPrompt(st, text)
    case GenerateClicked => StartGenerate(st).0
    case Replied(reply) => Finish(st, reply)
    case RenderClicked => Render(st)
  }

  /** Every handler keeps the frame in step with the code. */
  lemma StepKeepsFresh(st: State, e: Event)
    requires Fresh(st)
    ensures Fresh(Step(st, e))
  {
  }

  function Run(st: State, es: seq<Event>): State
    decreases |es|
  {
    if es == [] then st else Run(Step(st, es[0]), es[1..])
  }

  /** From the initial state, whatever happens, the frame shows the code on the page or nothing. */
  lemma {:induction false} RunKeepsFresh(es: seq<Event>)
    ensures Fresh(Run(Initial, es))
  {
    RunFrom(Initial, es);
  }

  lemma {:induction false} RunFrom(st: State, es: seq<Event>)
    requires Fresh(st)
    ensures Fresh(Run(st, es))
    decreases |es|
  {
    if es != [] {
      StepKeepsFresh(st, es[0]);
      RunFrom(Step(st, es[0]), es[1..]);
    }
  }
}
