/**
 The remote lookup of one work order (`get_files_for_workorder`) and the
 normalisation of its answer into a file list (`process_workorder`).

 The HTTP exchange is input data: a `Response` is what `requests.post`
 returned, or `Raised` when it (or anything else in the `try`) raised. The
 JSON decoder behind `resp.json()` is a parameter that answers `None` when
 it would raise.
 */
module Lookup {
  import opened Values
  import opened Strings

  datatype Response =
    | Raised
    | Http(status: int, content: seq<byte>, contentType: Option<string>)

  /** `resp.json()`: the decoded document, or `None` when decoding raises. */
  type Parser = seq<byte> -> Option<Json>

  /** The ASCII whitespace bytes that `bytes.strip()` removes. */
  predicate IsSpaceByte(b: byte) {
    b == 32 || (9 <= b <= 13)
  }

  /** `not content.strip()`: the body is empty once whitespace is removed. */
  predicate IsBlank(content: seq<byte>) {
    forall k :: 0 <= k < |content| ==> IsSpaceByte(content[k])
  }

  /** `"application/json" in headers.get("Content-Type", "").lower()`. */
  predicate IsJsonContentType(contentType: Option<string>) {
    var header := match contentType
      case Some(v) => v
      case None => "";
    Contains(Lower(header), "application/json")
  }

  /** The three checks a response must pass before its body is decoded. */
  predicate Acceptable(resp: Response) {
    && resp.Http?
    && resp.status == 200
    && !IsBlank(resp.content)
    && IsJsonContentType(resp.contentType)
  }

  /** The pair `(workorder, data)` that `get_files_for_workorder` returns. */
  datatype LookupResult = LookupResult(workorder: string, data: Json)

  /**
   `get_files_for_workorder`: the decoded body when the response passed every
   check and decoded, `None` in every other case, the raised ones included.
   */
  function GetFilesForWorkorder(workorder: string, resp: Response, parse: Parser): (r: LookupResult)
    ensures r.workorder == workorder
    ensures r.data != JNull ==> Acceptable(resp) && parse(resp.content) == Some(r.data)
    ensures Acceptable(resp) && parse(resp.content).Some? ==> r.data == parse(resp.content).value
    ensures !Acceptable(resp) || parse(resp.content).None? ==> r.data == JNull
  {
    match resp
    case Raised => LookupResult(workorder, JNull)
    case Http(status, content, contentType) =>
      if status != 200 || IsBlank(content) then LookupResult(workorder, JNull)
      else if IsJsonContentType(contentType) then
        match parse(content)
        case Some(j) => LookupResult(workorder, j)
        case None => LookupResult(workorder, JNull)
      else LookupResult(workorder, JNull)
  }

  /**
   `data.get("data") or data.get("files") or []` for a dict, the list itself
   for a list, `[]` for anything else (None included).
   */
  function Normalise(data: Json): (files: Json)
    ensures data.JArr? ==> files == data
    ensures data.JObj? && Truthy(Get(data.fields, "data")) ==> files == Get(data.fields, "data")
    ensures (data.JObj? && !Truthy(Get(data.fields, "data")) && Truthy(Get(data.fields, "files")))
              ==> files == Get(data.fields, "files")
    ensures (data.JObj? && !Truthy(Get(data.fields, "data")) && !Truthy(Get(data.fields, "files")))
              ==> files == JArr([])
    ensures !data.JArr? && !data.JObj? ==> files == JArr([])
  {
    match data
    case JObj(m) => Or(Or(Get(m, "data"), Get(m, "files")), JArr([]))
    case JArr(_) => data
    case _ => JArr([])
  }

  /**
   When a lookup finds files, stated directly on the response: it passed the
   checks, decoded, and the document is a non-empty list or a dict whose
   `data` or `files` entry is truthy.
   */
  predicate FindsFiles(resp: Response, parse: Parser) {
    && Acceptable(resp)
    && match parse(resp.content)
       case None => false
       case Some(j) =>
         || (j.JArr? && |j.items| > 0)
         || (j.JObj? && (Truthy(Get(j.fields, "data")) || Truthy(Get(j.fields, "files"))))
  }

  /** The `if files:` test after lookup and normalisation agrees with `FindsFiles`. */
  lemma FoundIff(workorder: string, resp: Response, parse: Parser)
    ensures Truthy(Normalise(GetFilesForWorkorder(workorder, resp, parse).data)) <==> FindsFiles(resp, parse)
  {
  }

  /** `{"files": xs}` and the bare list `xs` normalise to the same file list. */
  lemma FilesKeyAgreesWithBareList(xs: seq<Json>)
    ensures Normalise(JObj(map["files" := JArr(xs)])) == Normalise(JArr(xs))
  {
  }

  /** So does a non-empty `{"data": xs}`, whatever `files` holds: `data` takes precedence. */
  lemma DataKeyAgreesWithBareList(xs: seq<Json>, other: Json)
    requires |xs| > 0
    ensures Normalise(JObj(map["data" := JArr(xs), "files" := other])) == Normalise(JArr(xs))
  {
  }

  /** The normalised list of a failed lookup is empty. */
  lemma FailedLookupFindsNothing(workorder: string, resp: Response, parse: Parser)
    requires !Acceptable(resp)
    ensures Normalise(GetFilesForWorkorder(workorder, resp, parse).data) == JArr([])
  {
  }
}
