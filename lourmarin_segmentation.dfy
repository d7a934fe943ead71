/** tests/generate_segmentation_lourmarin.py: one mask request without fallback,
    the first image fitted and saved behind a `mask_saved` flag, `exit(1)` when
    there is none, then a text-only follow-up that replays the mask exchange and
    whose text parts are saved as the region metadata. */
module LourmarinSegmentation {
  import opened Service
  import opened EnvKey
  import opened Selection

  const Prompt1 := "Create detailed segmentation of this image. Use flat solid colors only. Do not include any text in the produced image."
  const Prompt2 := "For the last segmentation map you produced, provide:\n(1) The RGB color range for each segment\n(2) A text description/label of each segment"
  const MaskPath := "outputs/lourmarin/segmentation_mask_v3.png"
  const MetadataPath := "outputs/lourmarin/segmentation_metadata.txt"

  function MaskRequest(apiKey: string, artwork: Image): (r: Request)
    ensures r.contents == [Text(Prompt1), Picture(artwork)] && r.modalities == [IMAGE]
  {
    Request(apiKey, ImageModel, [Text(Prompt1), Picture(artwork)], [IMAGE])
  }

  /** The follow-up extends the mask request's contents with the model's whole
      reply and the new question, and asks for text only. */
  function FollowUpRequest(apiKey: string, artwork: Image, reply: seq<Part>): (r: Request)
    ensures r.contents == MaskRequest(apiKey, artwork).contents + [ModelTurn(reply), Text(Prompt2)]
    ensures r.apiKey == apiKey && r.model == MaskRequest(apiKey, artwork).model && r.modalities == [TEXT]
  {
    Request(apiKey, ImageModel, [Text(Prompt1), Picture(artwork), ModelTurn(reply), Text(Prompt2)], [TEXT])
  }

  /** The scan that sets `mask_saved`: the flag ends up true exactly when some part
      carries an image, and then only the first such part is fitted and saved. */
  method SaveFirstMask(parts: seq<Part>, w: nat, h: nat, fs: FileSystem) returns (fs': FileSystem, maskSaved: bool)
    ensures maskSaved <==> exists j :: 0 <= j < |parts| && parts[j].ImagePart?
    ensures maskSaved ==> FirstImage(parts).Some? && fs' == fs[MaskPath := PngFile(MaskOf(parts, w, h))]
    ensures !maskSaved ==> fs' == fs
  {
    fs', maskSaved := fs, false;
    var i := 0;
    while i < |parts|
      invariant 0 <= i <= |parts|
      invariant forall j :: 0 <= j < i ==> !parts[j].ImagePart?
      invariant !maskSaved && fs' == fs
    {
      if parts[i].ImagePart? {
        var maskImage := Decode(parts[i]);
        maskImage := FitToArtwork(maskImage, w, h);
        fs' := fs'[MaskPath := PngFile(maskImage)];
        maskSaved := true;
        assert FirstImage(parts) == Some(i);
        break;
      }
      i := i + 1;
    }
  }

  /** `if part.text:` — the text is set and not empty. */
  predicate HasText(part: Part) {
    part.TextPart? && part.text.Some? && part.text.value != ""
  }

  /** What one part adds to `text_output`. */
  function Piece(part: Part): string {
    if HasText(part) then part.text.value + "\n" else ""
  }

  /** The text parts of a response, in order, each followed by a newline. */
  function TextOf(parts: seq<Part>): string
    decreases |parts|
  {
    if parts == [] then "" else Piece(parts[0]) + TextOf(parts[1..])
  }

  /** Collecting the text of two responses in turn is collecting the text of both. */
  lemma {:induction false} TextOfAppend(a: seq<Part>, b: seq<Part>)
    ensures TextOf(a + b) == TextOf(a) + TextOf(b)
    decreases |a|
  {
    if a == [] {
      assert a + b == b;
    } else {
      assert (a + b)[1..] == a[1..] + b;
      TextOfAppend(a[1..], b);
    }
  }

  /** The metadata text is empty exactly when no part carries non-empty text. */
  lemma {:induction false} TextOfEmptyIff(parts: seq<Part>)
    ensures TextOf(parts) == "" <==> forall j :: 0 <= j < |parts| ==> !HasText(parts[j])
    decreases |parts|
  {
    if parts != [] {
      TextOfEmptyIff(parts[1..]);
      assert forall j :: 1 <= j < |parts| ==> parts[j] == parts[1..][j - 1];
      assert HasText(parts[0]) ==> |Piece(parts[0])| > 0;
    }
  }

  /** The `text_output += part.text + "\n"` loop. */
  method CollectText(parts: seq<Part>) returns (text: string)
    ensures text == TextOf(parts)
  {
    text := "";
    var i := 0;
    while i < |parts|
      invariant 0 <= i <= |parts|
      invariant text == TextOf(parts[..i])
    {
      var part := parts[i];
      if HasText(part) {
        text := text + part.text.value + "\n";
      }
      TextOfAppend(parts[..i], [part]);
      assert parts[..i + 1] == parts[..i] + [part];
      i := i + 1;
    }
    assert parts[..|parts|] == parts;
  }

  /** The whole script. */
  function ScriptTrace(env: string, client: Client, artwork: Image, fs: FileSystem): Trace {
    match KeyOf(Lines(env))
    case None => Trace(fs, [], Raised)
    case Some(apiKey) =>
      var first := MaskRequest(apiKey, artwork);
      match client(first)
      case ServiceError => Trace(fs, [first], Raised)
      case PartsMissing => Trace(fs, [first], Raised)
      case Response(reply) =>
        if FirstImage(reply).None? then Trace(fs, [first], Exited(1))
        else
          var withMask := fs[MaskPath := PngFile(MaskOf(reply, artwork.width, artwork.height))];
          var second := FollowUpRequest(apiKey, artwork, reply);
          match client(second)
          case ServiceError => Trace(withMask, [first, second], Raised)
          case PartsMissing => Trace(withMask, [first, second], Raised)
          case Response(answer) => Trace(withMask[MetadataPath := TextFile(TextOf(answer))], [first, second], Completed)
  }

  method RunScript(env: string, client: Client, artwork: Image, fs: FileSystem) returns (t: Trace)
    ensures t == ScriptTrace(env, client, artwork, fs)
  {
    var apiKey := LoadApiKey(Lines(env));
    if apiKey.None? {
      return Trace(fs, [], Raised);
    }
    var w, h := artwork.width, artwork.height;
    var first := MaskRequest(apiKey.value, artwork);
    var response1 := client(first);
    if !response1.Response? {
      return Trace(fs, [first], Raised);
    }
    var fs1, maskSaved := SaveFirstMask(response1.parts, w, h, fs);
    if !maskSaved {
      return Trace(fs, [first], Exited(1));
    }
    var second := FollowUpRequest(apiKey.value, artwork, response1.parts);
    var response2 := client(second);
    if !response2.Response? {
      return Trace(fs1, [first, second], Raised);
    }
    var textOutput := CollectText(response2.parts);
    t := Trace(fs1[MetadataPath := TextFile(textOutput)], [first, second], Completed);
  }

  /** Without a mask the script exits with status 1 before the follow-up is sent
      and writes nothing; with a mask, the saved mask has the artwork's size. */
  lemma MaskGatesFollowUp(env: string, client: Client, artwork: Image, fs: FileSystem)
    ensures var t := ScriptTrace(env, client, artwork, fs);
      && (t.exit == Exited(1) <==>
           && KeyOf(Lines(env)).Some?
           && client(MaskRequest(KeyOf(Lines(env)).value, artwork)).Response?
           && !Yields(client(MaskRequest(KeyOf(Lines(env)).value, artwork))))
      && (t.exit == Exited(1) ==> |t.calls| == 1 && t.files == fs)
      && (|t.calls| < 2 ==> t.files == fs)
      && (|t.calls| == 2 ==> Yields(client(t.calls[0])))
      && (|t.calls| == 2 ==>
           && MaskPath in t.files && t.files[MaskPath].PngFile?
           && t.files[MaskPath].image.width == artwork.width
           && t.files[MaskPath].image.height == artwork.height)
  {
  }

  /** The mask call has no `try` and no fallback: when it raises, or its reply has
      no parts to loop over, the run dies after that single call and writes nothing. */
  lemma MaskCallFailureIsFatal(env: string, client: Client, artwork: Image, fs: FileSystem)
    requires KeyOf(Lines(env)).Some?
    requires !client(MaskRequest(KeyOf(Lines(env)).value, artwork)).Response?
    ensures var t := ScriptTrace(env, client, artwork, fs);
      t.exit == Raised && t.calls == [MaskRequest(KeyOf(Lines(env)).value, artwork)] && t.files == fs
  {
  }

  /** The follow-up call has no `try` either: when it raises, or its reply has no
      parts to loop over, the run dies after the two calls with the mask saved and
      the metadata file as it was before the run. */
  lemma FollowUpFailureIsFatal(env: string, client: Client, artwork: Image, fs: FileSystem)
    requires KeyOf(Lines(env)).Some?
    requires Yields(client(MaskRequest(KeyOf(Lines(env)).value, artwork)))
    requires !client(FollowUpRequest(KeyOf(Lines(env)).value, artwork, client(MaskRequest(KeyOf(Lines(env)).value, artwork)).parts)).Response?
    ensures var t := ScriptTrace(env, client, artwork, fs);
      && t.exit == Raised && |t.calls| == 2
      && MaskPath in t.files
      && (MetadataPath in t.files <==> MetadataPath in fs)
      && (MetadataPath in fs ==> t.files[MetadataPath] == fs[MetadataPath])
  {
  }

  /** The follow-up replays, in order, the first prompt, the artwork, the model's
      whole mask reply and the new question, and asks for text only. */
  lemma FollowUpReplaysExchange(env: string, client: Client, artwork: Image, fs: FileSystem)
    requires |ScriptTrace(env, client, artwork, fs).calls| == 2
    ensures var t := ScriptTrace(env, client, artwork, fs);
      client(t.calls[0]).Response?
      && t.calls[0].modalities == [IMAGE] && t.calls[1].modalities == [TEXT]
      && t.calls[1].contents == [Text(Prompt1), Picture(artwork), ModelTurn(client(t.calls[0]).parts), Text(Prompt2)]
  {
  }

  /** A completed run writes the metadata file, even when no part had text. */
  lemma MetadataAlwaysWritten(env: string, client: Client, artwork: Image, fs: FileSystem)
    requires ScriptTrace(env, client, artwork, fs).exit == Completed
    ensures var t := ScriptTrace(env, client, artwork, fs);
      var answer := client(t.calls[1]).parts;
      && MetadataPath in t.files
      && t.files[MetadataPath] == TextFile(TextOf(answer))
      && ((forall j :: 0 <= j < |answer| ==> !HasText(answer[j])) ==> t.files[MetadataPath] == TextFile(""))
  {
    var t := ScriptTrace(env, client, artwork, fs);
    TextOfEmptyIff(client(t.calls[1]).parts);
  }

  /** The files a run writes, independent of what the file system held before. */
  function Writes(env: string, client: Client, artwork: Image): map<string, File> {
    match KeyOf(Lines(env))
    case None => map[]
    case Some(apiKey) =>
      var reply := client(MaskRequest(apiKey, artwork));
      if !Yields(reply) then map[]
      else
        var mask := map[MaskPath := PngFile(MaskOf(reply.parts, artwork.width, artwork.height))];
        match client(FollowUpRequest(apiKey, artwork, reply.parts))
        case Response(answer) => mask[MetadataPath := TextFile(TextOf(answer))]
        case _ => mask
  }

  /** Every save overwrites (`save` and `open(..., "w")`): the files after a run
      are the files before it with the run's own writes laid over them. */
  lemma SavesOverwrite(env: string, client: Client, artwork: Image, fs: FileSystem)
    ensures ScriptTrace(env, client, artwork, fs).files == fs + Writes(env, client, artwork)
  {
  }

  /** A second run, whatever the service answers this time, fully replaces the
      first run's files at every path it writes and leaves every other path as
      the first run left it. */
  lemma RerunReplaces(env: string, c1: Client, c2: Client, artwork: Image, fs: FileSystem)
    ensures var once := ScriptTrace(env, c1, artwork, fs).files;
      var twice := ScriptTrace(env, c2, artwork, once).files;
      var alone := ScriptTrace(env, c2, artwork, fs).files;
      && (forall p :: p in Writes(env, c2, artwork) ==> p in twice && p in alone && twice[p] == alone[p])
      && (forall p :: p !in Writes(env, c2, artwork) ==>
            (p in twice <==> p in once) && (p in once ==> twice[p] == once[p]))
  {
    var once := ScriptTrace(env, c1, artwork, fs).files;
    SavesOverwrite(env, c1, artwork, fs);
    SavesOverwrite(env, c2, artwork, once);
    SavesOverwrite(env, c2, artwork, fs);
  }
}
