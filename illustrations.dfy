/** The per-keyword illustration loop shared by generate_segmentation.py and
    tests/generate_poem_images_lourmarin.py: one text-only request per poem,
    the first image of each response saved under the poem's keyword, and any
    failure confined to its own keyword. */
module Illustrations {
  import opened Service
  import opened Selection

  /** One entry of the `poems` dictionary, in insertion order. */
  datatype Poem = Poem(keyword: string, text: string)

  const Instruction := "Create a painterly artistic illustration inspired by this poem. Do not include any text in the produced image."

  predicate DistinctKeywords(poems: seq<Poem>) {
    forall i, j :: 0 <= i < j < |poems| ==> poems[i].keyword != poems[j].keyword
  }

  function PoemPath(prefix: string, keyword: string): string {
    prefix + keyword + ".png"
  }

  /** Different keywords never share an output file. */
  lemma PoemPathInjective(prefix: string, k1: string, k2: string)
    requires PoemPath(prefix, k1) == PoemPath(prefix, k2)
    ensures k1 == k2
  {
    var p := PoemPath(prefix, k1);
    assert |k1| == |k2|;
    assert k1 == p[|prefix|..|prefix| + |k1|];
    assert k2 == p[|prefix|..|prefix| + |k2|];
  }

  /** The request for one poem: a single text prompt, image output only. */
  function PoemRequest(apiKey: string, poem: Poem): (r: Request)
    ensures r.contents == [Text(Instruction + "\n" + poem.text)] && r.modalities == [IMAGE]
  {
    Request(apiKey, ImageModel, [Text(Instruction + "\n" + poem.text)], [IMAGE])
  }

  /** What happened to one keyword: an image saved, a "No image" report, or an
      "Error" report for an exception caught by the loop. */
  datatype Status = Saved(image: Image) | NoImage | Failed

  function Illustrate(client: Client, apiKey: string, poem: Poem): (s: Status)
    ensures s.Failed? <==> !client(PoemRequest(apiKey, poem)).Response?
    ensures s.Saved? <==> Yields(client(PoemRequest(apiKey, poem)))
    ensures s.Saved? ==> s.image == Decode(client(PoemRequest(apiKey, poem)).parts[FirstImage(client(PoemRequest(apiKey, poem)).parts).value])
  {
    var outcome := client(PoemRequest(apiKey, poem));
    if !outcome.Response? then Failed
    else
      match FirstImage(outcome.parts)
      case None => NoImage
      case Some(k) => Saved(Decode(outcome.parts[k]))
  }

  /** The files the loop writes over the given poems, later writes winning. */
  function Written(client: Client, apiKey: string, prefix: string, poems: seq<Poem>): map<string, File>
    decreases |poems|
  {
    if poems == [] then map[]
    else
      var last := poems[|poems| - 1];
      var earlier := Written(client, apiKey, prefix, poems[..|poems| - 1]);
      match Illustrate(client, apiKey, last)
      case Saved(image) => earlier[PoemPath(prefix, last.keyword) := PngFile(image)]
      case _ => earlier
  }

  /** One more poem adds at most its own file to what the earlier ones wrote. */
  lemma WrittenSnoc(client: Client, apiKey: string, prefix: string, poems: seq<Poem>, i: nat)
    requires i < |poems|
    ensures var earlier := Written(client, apiKey, prefix, poems[..i]);
      Written(client, apiKey, prefix, poems[..i + 1]) ==
        match Illustrate(client, apiKey, poems[i])
        case Saved(image) => earlier[PoemPath(prefix, poems[i].keyword) := PngFile(image)]
        case _ => earlier
  {
    assert poems[..i + 1][..i] == poems[..i];
  }

  /** The requests of the poem loop, one per poem in order. */
  function PoemCalls(apiKey: string, poems: seq<Poem>): (calls: seq<Request>)
    ensures |calls| == |poems| && forall j :: 0 <= j < |poems| ==> calls[j] == PoemRequest(apiKey, poems[j])
  {
    seq(|poems|, j requires 0 <= j < |poems| => PoemRequest(apiKey, poems[j]))
  }

  /** Only poem paths are ever written. */
  lemma {:induction false} WrittenOnlyPoemPaths(client: Client, apiKey: string, prefix: string, poems: seq<Poem>)
    ensures forall path :: path in Written(client, apiKey, prefix, poems) ==>
      exists i :: 0 <= i < |poems| && path == PoemPath(prefix, poems[i].keyword)
    decreases |poems|
  {
    if poems != [] {
      var init := poems[..|poems| - 1];
      WrittenOnlyPoemPaths(client, apiKey, prefix, init);
      forall path | path in Written(client, apiKey, prefix, poems)
        ensures exists i :: 0 <= i < |poems| && path == PoemPath(prefix, poems[i].keyword)
      {
        if path !in Written(client, apiKey, prefix, init) {
          assert path == PoemPath(prefix, poems[|poems| - 1].keyword);
        } else {
          var i :| 0 <= i < |init| && path == PoemPath(prefix, init[i].keyword);
          assert init[i] == poems[i];
        }
      }
    }
  }

  /** With distinct keywords, each keyword's file holds exactly its own first image
      when one was returned, and is not written otherwise. */
  lemma {:induction false} WrittenAt(client: Client, apiKey: string, prefix: string, poems: seq<Poem>, i: nat)
    requires DistinctKeywords(poems) && i < |poems|
    ensures var path := PoemPath(prefix, poems[i].keyword);
      var s := Illustrate(client, apiKey, poems[i]);
      && (s.Saved? ==> path in Written(client, apiKey, prefix, poems)
                       && Written(client, apiKey, prefix, poems)[path] == PngFile(s.image))
      && (!s.Saved? ==> path !in Written(client, apiKey, prefix, poems))
    decreases |poems|
  {
    var n := |poems| - 1;
    var init := poems[..n];
    var path := PoemPath(prefix, poems[i].keyword);
    if i == n {
      WrittenOnlyPoemPaths(client, apiKey, prefix, init);
      forall j | 0 <= j < |init|
        ensures PoemPath(prefix, init[j].keyword) != path
      {
        assert init[j] == poems[j];
        if PoemPath(prefix, init[j].keyword) == path {
          PoemPathInjective(prefix, poems[i].keyword, init[j].keyword);
        }
      }
    } else {
      assert init[i] == poems[i];
      WrittenAt(client, apiKey, prefix, init, i);
      if PoemPath(prefix, poems[n].keyword) == path {
        PoemPathInjective(prefix, poems[n].keyword, poems[i].keyword);
      }
    }
  }

  /** The body of the `try` for one poem: the call, then the first image part of
      its response, if any. */
  method RequestIllustration(client: Client, apiKey: string, poem: Poem) returns (status: Status)
    ensures status == Illustrate(client, apiKey, poem)
  {
    var outcome := client(PoemRequest(apiKey, poem));
    if outcome.ServiceError? || outcome.PartsMissing? {
      // the call raised, or `for part in None` raised TypeError: caught, "Error" reported
      return Failed;
    }
    var k := FindImage(outcome.parts);
    if k.None? {
      return NoImage;
    }
    return Saved(Decode(outcome.parts[k.value]));
  }

  /** The loop over `poems.items()`: every keyword gets its own request in order,
      whatever happened to the earlier ones, and the files written are exactly
      those of `Written`. */
  method IllustrateAll(client: Client, apiKey: string, prefix: string, poems: seq<Poem>, fs: FileSystem)
    returns (fs': FileSystem, calls: seq<Request>, report: seq<Status>)
    ensures calls == PoemCalls(apiKey, poems)
    ensures |report| == |poems| && forall i :: 0 <= i < |poems| ==> report[i] == Illustrate(client, apiKey, poems[i])
    ensures fs' == fs + Written(client, apiKey, prefix, poems)
  {
    fs', calls, report := fs, [], [];
    var i := 0;
    while i < |poems|
      invariant 0 <= i <= |poems|
      invariant calls == PoemCalls(apiKey, poems[..i])
      invariant |report| == i && forall j :: 0 <= j < i ==> report[j] == Illustrate(client, apiKey, poems[j])
      invariant fs' == fs + Written(client, apiKey, prefix, poems[..i])
    {
      var poem := poems[i];
      var outpath := PoemPath(prefix, poem.keyword);
      var request := PoemRequest(apiKey, poem);
      calls := calls + [request];
      assert calls == PoemCalls(apiKey, poems[..i + 1]);
      var status := RequestIllustration(client, apiKey, poem);
      if status.Saved? {
        ghost var earlier := Written(client, apiKey, prefix, poems[..i]);
        assert (fs + earlier)[outpath := PngFile(status.image)] == fs + earlier[outpath := PngFile(status.image)];
        fs' := fs'[outpath := PngFile(status.image)];
      }
      WrittenSnoc(client, apiKey, prefix, poems, i);
      report := report + [status];
      i := i + 1;
    }
    assert poems[..|poems|] == poems;
  }
}
