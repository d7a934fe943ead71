/** tests/generate_poem_images_lourmarin.py: read the key, then illustrate every
    poem of the `poems` dictionary into `images/lourmarin/`. */
module LourmarinPoems {
  import opened Service
  import opened EnvKey
  import opened Illustrations

  const PoemPrefix := "images/lourmarin/lourmarin_"

  function ScriptTrace(env: string, client: Client, poems: seq<Poem>, fs: FileSystem): Trace {
    match KeyOf(Lines(env))
    case None => Trace(fs, [], Raised)
    case Some(apiKey) =>
      Trace(fs + Written(client, apiKey, PoemPrefix, poems),
            PoemCalls(apiKey, poems),
            Completed)
  }

  method RunScript(env: string, client: Client, poems: seq<Poem>, fs: FileSystem)
    returns (t: Trace, report: seq<Status>)
    ensures t == ScriptTrace(env, client, poems, fs)
    ensures KeyOf(Lines(env)).Some? ==>
      |report| == |poems| && forall i :: 0 <= i < |poems| ==> report[i] == Illustrate(client, KeyOf(Lines(env)).value, poems[i])
  {
    var apiKey := LoadApiKey(Lines(env));
    if apiKey.None? {
      return Trace(fs, [], Raised), [];
    }
    var fs', calls;
    fs', calls, report := IllustrateAll(client, apiKey.value, PoemPrefix, poems, fs);
    t := Trace(fs', calls, Completed);
  }

  /** Each keyword writes `images/lourmarin/lourmarin_{keyword}.png` from the first
      image of its own response, leaves it alone when its call failed or returned
      no image, and every keyword is asked for whatever happened to the others. */
  lemma EachKeywordOnItsOwn(env: string, client: Client, poems: seq<Poem>, fs: FileSystem, i: nat)
    requires KeyOf(Lines(env)).Some? && DistinctKeywords(poems) && i < |poems|
    ensures var apiKey := KeyOf(Lines(env)).value;
      var t := ScriptTrace(env, client, poems, fs);
      var path := "images/lourmarin/lourmarin_" + poems[i].keyword + ".png";
      var status := Illustrate(client, apiKey, poems[i]);
      && |t.calls| == |poems|
      && t.calls[i].contents == [Text(Instruction + "\n" + poems[i].text)]
      && (status.Saved? ==> path in t.files && t.files[path] == PngFile(status.image))
      && (!status.Saved? ==> (path in t.files <==> path in fs) && (path in fs ==> t.files[path] == fs[path]))
  {
    var apiKey := KeyOf(Lines(env)).value;
    WrittenAt(client, apiKey, PoemPrefix, poems, i);
    assert PoemPath(PoemPrefix, poems[i].keyword) == "images/lourmarin/lourmarin_" + poems[i].keyword + ".png";
  }
}
