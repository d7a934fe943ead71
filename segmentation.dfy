/** generate_segmentation.py: read the key, try the candidate models in order
    until one returns a mask, save it fitted to the artwork, then illustrate
    every poem whether or not a mask was obtained. */
module Segmentation {
  import opened Service
  import opened EnvKey
  import opened Selection
  import opened Illustrations

  const MaskPrompt := "create detailed segmentation of this image. Use flat solid colors only. Do not include any text in the produced image."
  const Candidates: seq<string> := [ImageModel]
  const MaskPath := "outputs/segmentation_mask.png"
  const PoemPrefix := "outputs/poem_"

  /** The mask request to one candidate: the instruction and the artwork, image output only. */
  function MaskRequest(apiKey: string, model: string, artwork: Image): (r: Request)
    ensures r.model == model && r.contents == [Text(MaskPrompt), Picture(artwork)] && r.modalities == [IMAGE]
  {
    Request(apiKey, model, [Text(MaskPrompt), Picture(artwork)], [IMAGE])
  }

  /** The index of the first candidate whose call yields an image part. */
  function FirstSuccess(client: Client, apiKey: string, artwork: Image, models: seq<string>): (r: Option<nat>)
    ensures r.Some? ==> r.value < |models| && Yields(client(MaskRequest(apiKey, models[r.value], artwork)))
    ensures r.Some? ==> forall j :: 0 <= j < r.value ==> !Yields(client(MaskRequest(apiKey, models[j], artwork)))
    ensures r.None? <==> forall j :: 0 <= j < |models| ==> !Yields(client(MaskRequest(apiKey, models[j], artwork)))
    decreases |models|
  {
    if models == [] then None
    else if Yields(client(MaskRequest(apiKey, models[0], artwork))) then Some(0)
    else
      match FirstSuccess(client, apiKey, artwork, models[1..])
      case None => None
      case Some(k) => Some(k + 1)
  }

  /** Candidates `1..k` failing and candidate `k + 1` succeeding select candidate `k + 1`. */
  lemma FallbackSelectsFirstWorking(client: Client, apiKey: string, artwork: Image, models: seq<string>, k: nat)
    requires k < |models| && Yields(client(MaskRequest(apiKey, models[k], artwork)))
    requires forall j :: 0 <= j < k ==> !Yields(client(MaskRequest(apiKey, models[j], artwork)))
    ensures FirstSuccess(client, apiKey, artwork, models) == Some(k)
    ensures Tried(client, apiKey, artwork, models) == k + 1
    ensures MaskOutcome(client, apiKey, artwork, models)
      == Some(MaskOf(client(MaskRequest(apiKey, models[k], artwork)).parts, artwork.width, artwork.height))
  {
  }

  /** When no candidate yields an image, every candidate is called and no mask is obtained. */
  lemma ExhaustionFindsNoMask(client: Client, apiKey: string, artwork: Image, models: seq<string>)
    requires forall j :: 0 <= j < |models| ==> !Yields(client(MaskRequest(apiKey, models[j], artwork)))
    ensures Tried(client, apiKey, artwork, models) == |models|
    ensures MaskOutcome(client, apiKey, artwork, models) == None
  {
    assert FirstSuccess(client, apiKey, artwork, models).None?;
  }

  /** How many candidates are called: up to the first working one, or all of them. */
  function Tried(client: Client, apiKey: string, artwork: Image, models: seq<string>): (n: nat)
    ensures n <= |models|
  {
    match FirstSuccess(client, apiKey, artwork, models)
    case Some(k) => k + 1
    case None => |models|
  }

  /** The mask the fallback chain obtains, if any: it always has the artwork's size. */
  function MaskOutcome(client: Client, apiKey: string, artwork: Image, models: seq<string>): (mask: Option<Image>)
    ensures mask.Some? <==> exists j :: 0 <= j < |models| && Yields(client(MaskRequest(apiKey, models[j], artwork)))
    ensures mask.Some? ==> mask.value.width == artwork.width && mask.value.height == artwork.height
  {
    match FirstSuccess(client, apiKey, artwork, models)
    case None => None
    case Some(k) => Some(MaskOf(client(MaskRequest(apiKey, models[k], artwork)).parts, artwork.width, artwork.height))
  }

  /** The requests of the candidate loop when it calls the first `n` candidates. */
  function MaskCalls(apiKey: string, artwork: Image, models: seq<string>, n: nat): (calls: seq<Request>)
    requires n <= |models|
    ensures |calls| == n && forall j :: 0 <= j < n ==> calls[j] == MaskRequest(apiKey, models[j], artwork)
  {
    seq(n, j requires 0 <= j < n => MaskRequest(apiKey, models[j], artwork))
  }

  /** Saving the mask; nothing at all is written when there is none. */
  function SaveMask(fs: FileSystem, mask: Option<Image>): FileSystem {
    if mask.Some? then fs[MaskPath := PngFile(mask.value)] else fs
  }

  /** The body of the `try` for one candidate: a failing call, or a response with
      no image part, gives nothing; otherwise its first image, fitted to `(w, h)`. */
  method TryCandidate(client: Client, request: Request, w: nat, h: nat) returns (mask: Option<Image>)
    ensures mask.Some? <==> Yields(client(request))
    ensures mask.Some? ==> mask.value == MaskOf(client(request).parts, w, h)
  {
    var outcome := client(request);
    if outcome.ServiceError? || outcome.PartsMissing? {
      // the call raised, or `for part in None` raised TypeError: caught, next candidate
      return None;
    }
    var k := FindImage(outcome.parts);
    if k.None? {
      return None;
    }
    var image := Decode(outcome.parts[k.value]);
    image := FitToArtwork(image, w, h);
    return Some(image);
  }

  /** The `for model_name in models_to_try` loop: a failing call or an image-less
      response moves on, the first image stops the loop. */
  method RequestMask(client: Client, apiKey: string, artwork: Image, models: seq<string>, fs: FileSystem)
    returns (fs': FileSystem, calls: seq<Request>, mask: Option<Image>)
    ensures mask == MaskOutcome(client, apiKey, artwork, models)
    ensures calls == MaskCalls(apiKey, artwork, models, Tried(client, apiKey, artwork, models))
    ensures fs' == SaveMask(fs, mask)
  {
    fs', calls, mask := fs, [], None;
    var i := 0;
    while i < |models|
      invariant 0 <= i <= |models|
      invariant calls == MaskCalls(apiKey, artwork, models, i)
      invariant forall j :: 0 <= j < i ==> !Yields(client(MaskRequest(apiKey, models[j], artwork)))
      invariant mask.None? && fs' == fs
    {
      var request := MaskRequest(apiKey, models[i], artwork);
      calls := calls + [request];
      assert calls == MaskCalls(apiKey, artwork, models, i + 1);
      var found := TryCandidate(client, request, artwork.width, artwork.height);
      if found.None? {
        i := i + 1;
        continue;
      }
      fs' := fs'[MaskPath := PngFile(found.value)];
      mask := found;
      FallbackSelectsFirstWorking(client, apiKey, artwork, models, i);
      return;
    }
    ExhaustionFindsNoMask(client, apiKey, artwork, models);
  }

  /** The files after a run with a key: the mask (if any), then the poem images. */
  function Outputs(client: Client, apiKey: string, artwork: Image, poems: seq<Poem>, fs: FileSystem): FileSystem {
    SaveMask(fs, MaskOutcome(client, apiKey, artwork, Candidates)) + Written(client, apiKey, PoemPrefix, poems)
  }

  /** The run once the key is read: the candidate loop, then the poem loop over
      the files it left; the script then completes. */
  function KeyedTrace(client: Client, apiKey: string, artwork: Image, poems: seq<Poem>, fs: FileSystem): Trace {
    Trace(
      Outputs(client, apiKey, artwork, poems, fs),
      MaskCalls(apiKey, artwork, Candidates, Tried(client, apiKey, artwork, Candidates)) + PoemCalls(apiKey, poems),
      Completed)
  }

  /** The whole script. Without a key line `api_key` is unbound and the script
      dies before any call. */
  function ScriptTrace(env: string, client: Client, artwork: Image, poems: seq<Poem>, fs: FileSystem): Trace {
    match KeyOf(Lines(env))
    case None => Trace(fs, [], Raised)
    case Some(apiKey) => KeyedTrace(client, apiKey, artwork, poems, fs)
  }

  method RunScript(env: string, client: Client, artwork: Image, poems: seq<Poem>, fs: FileSystem)
    returns (t: Trace, report: seq<Status>)
    ensures t == ScriptTrace(env, client, artwork, poems, fs)
    ensures KeyOf(Lines(env)).Some? ==>
      |report| == |poems| && forall i :: 0 <= i < |poems| ==> report[i] == Illustrate(client, KeyOf(Lines(env)).value, poems[i])
  {
    var apiKey := LoadApiKey(Lines(env));
    if apiKey.None? {
      return Trace(fs, [], Raised), [];
    }
    var fs1, maskCalls, mask := RequestMask(client, apiKey.value, artwork, Candidates, fs);
    var fs2, poemCalls;
    fs2, poemCalls, report := IllustrateAll(client, apiKey.value, PoemPrefix, poems, fs1);
    assert maskCalls == MaskCalls(apiKey.value, artwork, Candidates, Tried(client, apiKey.value, artwork, Candidates));
    assert poemCalls == PoemCalls(apiKey.value, poems);
    t := Trace(fs2, maskCalls + poemCalls, Completed);
  }

  /** No poem file can land on the mask's path. */
  lemma MaskPathIsNoPoemPath(keyword: string)
    ensures PoemPath(PoemPrefix, keyword) != MaskPath
  {
    assert PoemPath(PoemPrefix, keyword)[8] == 'p';
    assert MaskPath[8] == 's';
  }

  /** After a run with the key the mask file, when a mask was obtained, has
      exactly the artwork's size; when none was obtained the mask path is left as it was. */
  lemma {:induction false} PersistedMaskFitsArtwork(client: Client, apiKey: string, artwork: Image, poems: seq<Poem>, fs: FileSystem)
    ensures var files := KeyedTrace(client, apiKey, artwork, poems, fs).files;
      match MaskOutcome(client, apiKey, artwork, Candidates)
      case Some(mask) =>
        MaskPath in files && files[MaskPath] == PngFile(mask)
        && mask.width == artwork.width && mask.height == artwork.height
      case None =>
        (MaskPath in files <==> MaskPath in fs) && (MaskPath in fs ==> files[MaskPath] == fs[MaskPath])
  {
    WrittenOnlyPoemPaths(client, apiKey, PoemPrefix, poems);
    forall i | 0 <= i < |poems| {
      MaskPathIsNoPoemPath(poems[i].keyword);
    }
    assert MaskPath !in Written(client, apiKey, PoemPrefix, poems);
  }

  /** When every candidate fails, all candidates were called once and the poem
      loop still ran in full. */
  lemma ExhaustionStillIllustrates(client: Client, apiKey: string, artwork: Image, poems: seq<Poem>, fs: FileSystem)
    requires forall j :: 0 <= j < |Candidates| ==> !Yields(client(MaskRequest(apiKey, Candidates[j], artwork)))
    ensures var t := KeyedTrace(client, apiKey, artwork, poems, fs);
      |t.calls| == |Candidates| + |poems| && t.exit == Completed
      && forall i :: 0 <= i < |poems| ==> t.calls[|Candidates| + i] == PoemRequest(apiKey, poems[i])
  {
    ExhaustionFindsNoMask(client, apiKey, artwork, Candidates);
    var maskCalls := MaskCalls(apiKey, artwork, Candidates, |Candidates|);
    var poemCalls := PoemCalls(apiKey, poems);
    assert KeyedTrace(client, apiKey, artwork, poems, fs).calls == maskCalls + poemCalls;
    forall i | 0 <= i < |poems|
      ensures (maskCalls + poemCalls)[|Candidates| + i] == PoemRequest(apiKey, poems[i])
    {
      assert (maskCalls + poemCalls)[|maskCalls| + i] == poemCalls[i];
    }
  }

  /** The files a run writes, independent of what the file system held before. */
  function Writes(env: string, client: Client, artwork: Image, poems: seq<Poem>): map<string, File> {
    match KeyOf(Lines(env))
    case None => map[]
    case Some(apiKey) =>
      var mask := MaskOutcome(client, apiKey, artwork, Candidates);
      (if mask.Some? then map[MaskPath := PngFile(mask.value)] else map[])
        + Written(client, apiKey, PoemPrefix, poems)
  }

  /** Every save overwrites: the files after a run are the files before it with
      the run's own writes laid over them. */
  lemma SavesOverwrite(env: string, client: Client, artwork: Image, poems: seq<Poem>, fs: FileSystem)
    ensures ScriptTrace(env, client, artwork, poems, fs).files == fs + Writes(env, client, artwork, poems)
  {
    if KeyOf(Lines(env)).Some? {
      var apiKey := KeyOf(Lines(env)).value;
      var mask := MaskOutcome(client, apiKey, artwork, Candidates);
      var m: map<string, File> := if mask.Some? then map[MaskPath := PngFile(mask.value)] else map[];
      var w := Written(client, apiKey, PoemPrefix, poems);
      assert SaveMask(fs, mask) == fs + m;
      assert (fs + m) + w == fs + (m + w);
    }
  }

  /** A second run, whatever the service answers this time, fully replaces the
      first run's files at every path it writes and leaves every other path as
      the first run left it. */
  lemma RerunReplaces(env: string, c1: Client, c2: Client, artwork: Image, poems: seq<Poem>, fs: FileSystem)
    ensures var once := ScriptTrace(env, c1, artwork, poems, fs).files;
      var twice := ScriptTrace(env, c2, artwork, poems, once).files;
      var alone := ScriptTrace(env, c2, artwork, poems, fs).files;
      && (forall p :: p in Writes(env, c2, artwork, poems) ==> p in twice && p in alone && twice[p] == alone[p])
      && (forall p :: p !in Writes(env, c2, artwork, poems) ==>
            (p in twice <==> p in once) && (p in once ==> twice[p] == once[p]))
  {
    var once := ScriptTrace(env, c1, artwork, poems, fs).files;
    SavesOverwrite(env, c1, artwork, poems, fs);
    SavesOverwrite(env, c2, artwork, poems, once);
    SavesOverwrite(env, c2, artwork, poems, fs);
  }

  /** Each poem keyword writes `outputs/poem_{keyword}.png` from the first image of
      its own response and leaves that path alone otherwise; an error for one
      keyword does not keep the later ones from being asked. */
  lemma PoemFilePerKeyword(client: Client, apiKey: string, artwork: Image, poems: seq<Poem>, fs: FileSystem, i: nat)
    requires DistinctKeywords(poems) && i < |poems|
    ensures var t := KeyedTrace(client, apiKey, artwork, poems, fs);
      var path := "outputs/poem_" + poems[i].keyword + ".png";
      var status := Illustrate(client, apiKey, poems[i]);
      var before := SaveMask(fs, MaskOutcome(client, apiKey, artwork, Candidates));
      && t.calls[Tried(client, apiKey, artwork, Candidates) + i] == PoemRequest(apiKey, poems[i])
      && (status.Saved? ==> path in t.files && t.files[path] == PngFile(status.image))
      && (!status.Saved? ==> (path in t.files <==> path in before) && (path in before ==> t.files[path] == before[path]))
  {
    var tried := Tried(client, apiKey, artwork, Candidates);
    var before := SaveMask(fs, MaskOutcome(client, apiKey, artwork, Candidates));
    var w := Written(client, apiKey, PoemPrefix, poems);
    var maskCalls := MaskCalls(apiKey, artwork, Candidates, tried);
    var poemCalls := PoemCalls(apiKey, poems);
    var path := PoemPath(PoemPrefix, poems[i].keyword);
    assert (maskCalls + poemCalls)[tried + i] == poemCalls[i];
    WrittenAt(client, apiKey, PoemPrefix, poems, i);
    if Illustrate(client, apiKey, poems[i]).Saved? {
      assert path in w;
      assert (before + w)[path] == w[path];
    } else {
      assert path !in w;
    }
  }


  /** A first candidate that raises and a second that returns one 1024x1024 image
      give a 1920x1080 mask resampled with NEAREST from that image, after exactly
      two calls. */
  lemma SecondCandidateResized(client: Client, apiKey: string, data: Bytes)
    requires client(MaskRequest(apiKey, "m1", Decoded(1920, 1080, []))) == ServiceError
    requires client(MaskRequest(apiKey, "m2", Decoded(1920, 1080, []))) == Response([ImagePart(1024, 1024, data)])
    ensures Tried(client, apiKey, Decoded(1920, 1080, []), ["m1", "m2"]) == 2
    ensures MaskOutcome(client, apiKey, Decoded(1920, 1080, []), ["m1", "m2"])
      == Some(NearestResized(Decoded(1024, 1024, data), 1920, 1080))
  {
    var artwork := Decoded(1920, 1080, []);
    FallbackSelectsFirstWorking(client, apiKey, artwork, ["m1", "m2"], 1);
  }
}
