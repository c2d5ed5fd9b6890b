/** The translation job handler of `src/queue/translation.worker.ts`.

    A job carries a JSON value and the translation parameters. The handler
    extracts the string leaves, sends their texts to the translator in
    chunks of fifty, zips the translations back onto the leaves' paths,
    rebuilds the JSON and enqueues exactly one callback: `completed` with the
    rebuilt value, or `failed` with the error's message, after which the
    error is rethrown so that the job is retried.

    The translator (the DeepL service) and the clock are arguments; the
    callback queue is an object whose list of jobs the handler appends to. */
module TranslationWorker {
  import opened Wrappers
  import opened JsText
  import opened JsonTraversal

  /** Texts per translator request (line 23). */
  const ChunkSize: nat := 50

  /** `TranslationJobData`. */
  datatype TranslationJobData = TranslationJobData(
    json: Json, sourceLang: Option<string>, targetLang: string,
    callbackUrl: string, glossaryId: Option<string>, metadata: Option<Json>)

  /** The payload of a callback job: `status: 'completed'` with the data, or
      `status: 'failed'` with the error message. */
  datatype CallbackPayload =
    | Completed(data: Json, metadata: Option<Json>, timestamp: string)
    | Failed(error: string, metadata: Option<Json>, timestamp: string)

  datatype CallbackJobData = CallbackJobData(url: string, payload: CallbackPayload)

  /** `deeplService.translate(texts, sourceLang, targetLang, glossaryId)`:
      the translations, or the message of the error it threw. */
  type Translator = (seq<string>, Option<string>, string, Option<string>) -> Result<seq<string>>

  /** The translator answers a request with one text per text sent, in the
      same order. */
  ghost predicate LengthPreserving(translate: Translator)
  {
    forall texts, sl, tl, g :: translate(texts, sl, tl, g).Ok? ==> |translate(texts, sl, tl, g).value| == |texts|
  }

  // ---------------------------------------------------------------------
  // The chunk loop (lines 23-35)
  // ---------------------------------------------------------------------

  /** The chunks the loop sends from position `i` on:
      `texts.slice(i, i + 50)`, `texts.slice(i + 50, i + 100)`, ... while
      `i < texts.length`. */
  function ChunksFrom(texts: seq<string>, i: nat): seq<seq<string>>
    decreases |texts| - i
  {
    if i >= |texts| then []
    else [texts[i..Min(i + ChunkSize, |texts|)]] + ChunksFrom(texts, i + ChunkSize)
  }

  function Flatten(parts: seq<seq<string>>): seq<string>
  {
    if parts == [] then [] else parts[0] + Flatten(parts[1..])
  }

  /** The chunks cover the texts from `i` on, in order and each once; each
      holds between one and fifty texts, and all but the last exactly
      fifty. */
  lemma {:induction false} ChunksCover(texts: seq<string>, i: nat)
    requires i <= |texts|
    ensures Flatten(ChunksFrom(texts, i)) == texts[i..]
    ensures forall c :: c in ChunksFrom(texts, i) ==> 0 < |c| <= ChunkSize
    ensures forall j :: 0 <= j < |ChunksFrom(texts, i)| - 1 ==> |ChunksFrom(texts, i)[j]| == ChunkSize
    decreases |texts| - i
  {
    if i < |texts| {
      var next := Min(i + ChunkSize, |texts|);
      var cs := ChunksFrom(texts, i);
      ChunksCover(texts, next);
      assert next < |texts| ==> next == i + ChunkSize;
      assert cs == [texts[i..next]] + ChunksFrom(texts, i + ChunkSize);
      assert cs[1..] == ChunksFrom(texts, i + ChunkSize);
      assert texts[i..] == texts[i..next] + texts[next..];
      forall j | 0 <= j < |cs| - 1 ensures |cs[j]| == ChunkSize {
        if j > 0 { assert cs[j] == cs[1..][j - 1]; }
      }
    }
  }

  /** An error result absorbs what comes after it; a success prepends. */
  function Prepend(done: seq<string>, rest: Result<seq<string>>): Result<seq<string>>
  {
    match rest
    case Ok(more) => Ok(done + more)
    case Failure(e) => Failure(e)
  }

  /** The requests for `chunks`, one after another: the concatenated
      translations, or the error of the first request that throws (later
      chunks are then never sent). */
  function TranslateChunks(translate: Translator, chunks: seq<seq<string>>,
                           sl: Option<string>, tl: string, g: Option<string>): Result<seq<string>>
  {
    if chunks == [] then Ok([])
    else match translate(chunks[0], sl, tl, g)
      case Failure(e) => Failure(e)
      case Ok(out) => Prepend(out, TranslateChunks(translate, chunks[1..], sl, tl, g))
  }

  lemma PrependPrepend(a: seq<string>, b: seq<string>, r: Result<seq<string>>)
    ensures Prepend(a, Prepend(b, r)) == Prepend(a + b, r)
  {
    if r.Ok? {
      assert a + (b + r.value) == (a + b) + r.value;
    }
  }

  /** The loop of lines 24-35: `translatedTexts` grows by each chunk's
      translations; a translator error leaves the loop. */
  method TranslateInChunks(translate: Translator, textsToTranslate: seq<string>,
                           sourceLang: Option<string>, targetLang: string, glossaryId: Option<string>)
    returns (r: Result<seq<string>>)
    ensures r == TranslateChunks(translate, ChunksFrom(textsToTranslate, 0), sourceLang, targetLang, glossaryId)
  {
    ghost var all := TranslateChunks(translate, ChunksFrom(textsToTranslate, 0), sourceLang, targetLang, glossaryId);
    var translatedTexts: seq<string> := [];
    var i: nat := 0;
    assert all.Ok? ==> [] + all.value == all.value;
    while i < |textsToTranslate|
      invariant all == Prepend(translatedTexts,
                               TranslateChunks(translate, ChunksFrom(textsToTranslate, i), sourceLang, targetLang, glossaryId))
      decreases |textsToTranslate| - i
    {
      var chunk := textsToTranslate[i..Min(i + ChunkSize, |textsToTranslate|)];
      assert ChunksFrom(textsToTranslate, i) == [chunk] + ChunksFrom(textsToTranslate, i + ChunkSize);
      assert ([chunk] + ChunksFrom(textsToTranslate, i + ChunkSize))[1..] == ChunksFrom(textsToTranslate, i + ChunkSize);
      var translatedChunk := translate(chunk, sourceLang, targetLang, glossaryId);
      if translatedChunk.Failure? {
        return Failure(translatedChunk.error);
      }
      PrependPrepend(translatedTexts, translatedChunk.value,
                     TranslateChunks(translate, ChunksFrom(textsToTranslate, i + ChunkSize), sourceLang, targetLang, glossaryId));
      translatedTexts := translatedTexts + translatedChunk.value;
      i := i + ChunkSize;
    }
    assert translatedTexts + [] == translatedTexts;
    r := Ok(translatedTexts);
  }

  /** A length-preserving translator that succeeds on every chunk returns
      the chunks' translations back to back: one text per text sent, in
      the same order. */
  lemma {:induction false} TranslateChunksLength(translate: Translator, chunks: seq<seq<string>>,
                                                sl: Option<string>, tl: string, g: Option<string>)
    requires LengthPreserving(translate)
    ensures TranslateChunks(translate, chunks, sl, tl, g).Ok? ==>
              |TranslateChunks(translate, chunks, sl, tl, g).value| == |Flatten(chunks)|
  {
    if chunks != [] {
      TranslateChunksLength(translate, chunks[1..], sl, tl, g);
    }
  }

  // ---------------------------------------------------------------------
  // The zip (lines 37-40) and the outcome of a job
  // ---------------------------------------------------------------------

  /** `nodes.map((node, index) => ({ path: node.path, value: translatedTexts[index] }))`. */
  function ZipNodes(nodes: seq<StringNode>, translatedTexts: seq<string>): (r: seq<StringNode>)
    requires |translatedTexts| == |nodes|
    ensures SamePaths(r, nodes)
    ensures forall i :: 0 <= i < |r| ==> r[i].value == translatedTexts[i]
  {
    seq(|nodes|, i requires 0 <= i < |nodes| => StringNode(nodes[i].path, translatedTexts[i]))
  }

  function Texts(nodes: seq<StringNode>): (ts: seq<string>)
    ensures |ts| == |nodes| && forall i :: 0 <= i < |nodes| ==> ts[i] == nodes[i].value
  {
    seq(|nodes|, i requires 0 <= i < |nodes| => nodes[i].value)
  }

  /** What the `try` block of lines 17-53 computes: the rebuilt JSON, or the
      message of the error that ended it. */
  function TranslatedJson(job: TranslationJobData, translate: Translator): Result<Json>
    requires WellFormed(job.json) && LengthPreserving(translate)
  {
    var nodes := ExtractStrings(job.json, []);
    var texts := Texts(nodes);
    var chunks := ChunksFrom(texts, 0);
    match TranslateChunks(translate, chunks, job.sourceLang, job.targetLang, job.glossaryId)
    case Failure(e) => Failure(e)
    case Ok(translatedTexts) =>
      ChunksCover(texts, 0);
      TranslateChunksLength(translate, chunks, job.sourceLang, job.targetLang, job.glossaryId);
      assert texts[0..] == texts;
      Reconstructed(job.json, ZipNodes(nodes, translatedTexts))
  }

  /** The one callback a run of the handler enqueues. */
  function CallbackFor(job: TranslationJobData, outcome: Result<Json>, timestamp: string): (cb: CallbackJobData)
    ensures cb.url == job.callbackUrl && cb.payload.metadata == job.metadata
    ensures cb.payload.Completed? <==> outcome.Ok?
    ensures outcome.Ok? ==> cb.payload.data == outcome.value
    ensures outcome.Failure? ==> cb.payload.error == outcome.error
  {
    match outcome
    case Ok(data) => CallbackJobData(job.callbackUrl, Completed(data, job.metadata, timestamp))
    case Failure(e) => CallbackJobData(job.callbackUrl, Failed(e, job.metadata, timestamp))
  }

  /** A job whose value has no string leaves sends nothing to the translator
      and completes with a copy of its value. */
  lemma NoLeavesNoRequests(job: TranslationJobData, translate: Translator)
    requires WellFormed(job.json) && LengthPreserving(translate)
    requires ExtractStrings(job.json, []) == []
    ensures ChunksFrom(Texts(ExtractStrings(job.json, [])), 0) == []
    ensures TranslatedJson(job, translate) == Ok(job.json)
  {
    assert ZipNodes([], []) == [];
  }

  /** A job whose value is not itself a string and whose every request
      succeeds completes: the result has the shape of the input (every
      number, boolean, null, key and array length kept) and its string
      leaves are the extracted leaves, path by path, each carrying its
      translation in order. */
  lemma TranslatedJsonSuccess(job: TranslationJobData, translate: Translator)
    requires WellFormed(job.json) && !job.json.Str? && LengthPreserving(translate)
    requires TranslateChunks(translate, ChunksFrom(Texts(ExtractStrings(job.json, [])), 0),
                             job.sourceLang, job.targetLang, job.glossaryId).Ok?
    ensures var nodes := ExtractStrings(job.json, []);
            var translated := TranslateChunks(translate, ChunksFrom(Texts(nodes), 0),
                                              job.sourceLang, job.targetLang, job.glossaryId).value;
            && |translated| == |nodes|
            && TranslatedJson(job, translate).Ok?
            && WellFormed(TranslatedJson(job, translate).value)
            && Shape(TranslatedJson(job, translate).value) == Shape(job.json)
            && ExtractStrings(TranslatedJson(job, translate).value, []) == ZipNodes(nodes, translated)
  {
    var nodes := ExtractStrings(job.json, []);
    var texts := Texts(nodes);
    var chunks := ChunksFrom(texts, 0);
    ChunksCover(texts, 0);
    TranslateChunksLength(translate, chunks, job.sourceLang, job.targetLang, job.glossaryId);
    assert texts[0..] == texts;
    var translated := TranslateChunks(translate, chunks, job.sourceLang, job.targetLang, job.glossaryId).value;
    ReconstructTranslated(job.json, ZipNodes(nodes, translated));
  }

  /** A job whose value is a bare string fails even when the translator
      succeeds: writing the translation back assigns a property on a
      string. */
  lemma RootStringJobFails(job: TranslationJobData, translate: Translator)
    requires job.json.Str? && LengthPreserving(translate)
    ensures TranslatedJson(job, translate).Failure?
  {
    var s := job.json.s;
    var nodes := ExtractStrings(job.json, []);
    assert nodes == [StringNode([], s)];
    var texts := Texts(nodes);
    var chunks := ChunksFrom(texts, 0);
    var r := TranslateChunks(translate, chunks, job.sourceLang, job.targetLang, job.glossaryId);
    if r.Ok? {
      ChunksCover(texts, 0);
      TranslateChunksLength(translate, chunks, job.sourceLang, job.targetLang, job.glossaryId);
      assert texts[0..] == texts;
      RootStringNotReplaced(s, r.value[0]);
      assert ZipNodes(nodes, r.value) == [StringNode([], r.value[0])];
    }
  }

  // ---------------------------------------------------------------------
  // The callback queue and the handler (lines 14-70)
  // ---------------------------------------------------------------------

  /** The callback queue, seen as the list of jobs added to it. */
  class CallbackQueue {
    var jobs: seq<CallbackJobData>

    constructor ()
      ensures jobs == []
    {
      jobs := [];
    }

    /** `addCallbackJob`. */
    method Add(data: CallbackJobData)
      modifies this
      ensures jobs == old(jobs) + [data]
    {
      jobs := jobs + [data];
    }
  }

  /** The handler: the `try` block, then exactly one callback, `completed`
      or `failed`; a failure is rethrown (`Failure`), a success returns
      normally. `now` is the clock reading used for both timestamps. */
  method HandleTranslationJob(job: TranslationJobData, translate: Translator, queue: CallbackQueue, now: string)
    returns (r: Result<()>)
    requires WellFormed(job.json) && LengthPreserving(translate)
    modifies queue
    ensures queue.jobs == old(queue.jobs) + [CallbackFor(job, TranslatedJson(job, translate), now)]
    ensures r.Ok? <==> TranslatedJson(job, translate).Ok?
    ensures r.Failure? ==> r.error == TranslatedJson(job, translate).error
  {
    var nodes := ExtractStrings(job.json, []);
    var textsToTranslate := Texts(nodes);
    var translatedTexts := TranslateInChunks(translate, textsToTranslate, job.sourceLang, job.targetLang, job.glossaryId);
    if translatedTexts.Failure? {
      queue.Add(CallbackJobData(job.callbackUrl, Failed(translatedTexts.error, job.metadata, now)));
      return Failure(translatedTexts.error);
    }
    ChunksCover(textsToTranslate, 0);
    TranslateChunksLength(translate, ChunksFrom(textsToTranslate, 0), job.sourceLang, job.targetLang, job.glossaryId);
    assert textsToTranslate[0..] == textsToTranslate;
    var translatedNodes := ZipNodes(nodes, translatedTexts.value);
    var translatedJson := ReconstructJson(job.json, translatedNodes);
    if translatedJson.Failure? {
      queue.Add(CallbackJobData(job.callbackUrl, Failed(translatedJson.error, job.metadata, now)));
      return Failure(translatedJson.error);
    }
    queue.Add(CallbackJobData(job.callbackUrl, Completed(translatedJson.value, job.metadata, now)));
    r := Ok(());
  }
}
