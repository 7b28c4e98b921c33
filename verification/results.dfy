/** How the resolver reports its outcome: a value or the reason it gave up.
    Each failure kind stands for one `ValueError` an extractor raises, or for
    an exception `main` does not catch. */
module Results {

  datatype Option<+T> = None | Some(value: T) {

    predicate IsFailure() {
      None?
    }

    function PropagateFailure<U>(): Option<U>
      requires None?
    {
      None
    }

    function Extract(): T
      requires Some?
    {
      value
    }

    function GetOr(default: T): T {
      match this
      case Some(v) => v
      case None => default
    }

    /** The value, or the given failure when there is none. */
    function ToResult(f: Failure): (r: Result<T>)
      ensures r.Ok? <==> Some?
      ensures r.Ok? ==> r.value == value
      ensures r.Err? ==> r.error == f
    {
      match this
      case Some(v) => Ok(v)
      case None => Err(f)
    }
  }

  /** A stage of the VOE decode chain, named so that a failure says where it happened. */
  datatype DecodeStage =
    | OuterBase64     // base64 decode of the junk-stripped string
    | CodePointShift  // subtracting 3 from every code point
    | InnerBase64     // base64 decode of the reversed string
    | JsonParse       // reading the JSON object

  datatype Failure =
    | EmptyUrl                  // the embed URL is empty or only whitespace
    | InvalidUrl                // `urlparse` rejects the URL (unbalanced brackets)
    | BadScheme                 // the URL starts with neither http:// nor https://
    | MissingDomain             // the URL has no network location
    | WrongHost                 // a Luluvdo URL whose host does not mention luluvdo.com
    | BadStructure              // a LoadX path with fewer than three segments
    | MissingId                 // an empty id (LoadX id or host, Luluvdo last segment)
    | EmptyIdAfterQuery         // a Luluvdo id that is empty once the query is cut off
    | NotFound(what: string)    // an expected pattern or field is absent from a page
    | EmptyBaseUrl              // Doodstream's pass_md5 answer is blank
    | Decode(stage: DecodeStage)
    | NoVideoSource             // every VOE strategy failed
    | NoEpisodeLinks            // the episode page lists no provider entries at all
    | NoProviders               // no provider could be read from the episode page
    | NoLanguages               // the first provider offers no language at all
    | NotSupported(name: string)
    | MissingExtractor(name: string)
    | Upstream(reason: string)  // a failure reported by an injected collaborator

  datatype Result<+T> = Ok(value: T) | Err(error: Failure) {

    predicate IsFailure() {
      Err?
    }

    function PropagateFailure<U>(): Result<U>
      requires Err?
    {
      Err(error)
    }

    function Extract(): T
      requires Ok?
    {
      value
    }
  }
}
