/** The boundary between the generator scripts and the outside world, as values:
    the image-generation service, the image library and the file system.

    The service is a total function from a request to an outcome. The image
    library is reduced to symbolic images: decoding an inline-data part yields an
    image of the part's size, and a nearest-neighbour resize yields an image of
    the requested size whose pixels are not modelled. */
module Service {

  datatype Option<+T> = None | Some(value: T)

  newtype byte = x: int | 0 <= x < 256
  type Bytes = seq<byte>

  /** A raster image; only its size is observable. */
  datatype Image =
    | Decoded(width: nat, height: nat, encoded: Bytes)
    | NearestResized(source: Image, width: nat, height: nat)

  /** One part of a model response: inline image data, or a text field that may be unset. */
  datatype Part =
    | ImagePart(width: nat, height: nat, data: Bytes)
    | TextPart(text: Option<string>)

  /** One element of a request's `contents` list. */
  datatype Item =
    | Text(text: string)
    | Picture(image: Image)
    | ModelTurn(parts: seq<Part>)   // a prior response's content, replayed as-is

  /** The values of `response_modalities` in a request's configuration. */
  datatype Modality = IMAGE | TEXT

  datatype Request = Request(apiKey: string, model: string, contents: seq<Item>, modalities: seq<Modality>)

  /** A call either raises (network, quota, malformed request), or returns the
      parts of its first candidate (possibly an empty list), or returns a response
      whose `parts` is `None` because it has no candidate content; looping over
      that `None` raises `TypeError`. */
  datatype Outcome = ServiceError | Response(parts: seq<Part>) | PartsMissing

  type Client = Request -> Outcome

  /** The model every script asks for. */
  const ImageModel := "gemini-3-pro-image-preview"

  /** Decoding inline image data; `part.as_image()` and
      `Image.open(io.BytesIO(part.inline_data.data))` are the same operation here. */
  function Decode(part: Part): (image: Image)
    requires part.ImagePart?
    ensures image.width == part.width && image.height == part.height
  {
    Decoded(part.width, part.height, part.data)
  }

  datatype File = PngFile(image: Image) | TextFile(text: string)

  /** The file system, from path to content; saving a file overwrites the entry. */
  type FileSystem = map<string, File>

  /** How a script run ends: normally, through `exit(code)`, or by an exception nobody catches. */
  datatype Exit = Completed | Exited(code: int) | Raised

  /** What a script run leaves behind: the files, the service calls in the order
      issued, and how it ended. */
  datatype Trace = Trace(files: FileSystem, calls: seq<Request>, exit: Exit)
}
