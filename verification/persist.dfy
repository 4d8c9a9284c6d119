/**
 `save_files`: how each file descriptor of a work order becomes (at most)
 one file under the save directory, and which name it gets.

 Writes are returned as values instead of being performed; the GET of a
 `FileUrl` and `base64.b64decode` are parameters.
 */
module Persist {
  import opened Values
  import opened Strings
  import opened Paths

  /** What `requests.get(url, timeout=20)` gave: it raised, or a response. */
  datatype FileResponse = GetRaised | GetResponse(status: int, content: seq<byte>)

  type Fetcher = string -> FileResponse

  /** `base64.b64decode(s)`: the decoded bytes, or `None` when it raises. */
  type Decoder = string -> Option<seq<byte>>

  /** `"{workorder}_{idx}{ext}"`: the work order and `_`, the index in decimal, then the extension. */
  function FileName(workorder: string, idx: nat, ext: string): (name: string)
    ensures |name| > |workorder| + 1 + |ext|
    ensures name[..|workorder| + 1] == workorder + "_"
    ensures name[|name| - |ext|..] == ext
    ensures name[|workorder| + 1..|name| - |ext|] == NatToString(idx)
  {
    workorder + "_" + NatToString(idx) + ext
  }

  /** One file written by `save_files`: the parts of its name, and its bytes. */
  datatype Write = Write(workorder: string, idx: nat, ext: string, content: seq<byte>) {
    function Name(): string {
      FileName(workorder, idx, ext)
    }
  }

  /**
   File names never collide: the extension is cut at the name's last dot,
   the index at the last underscore before it, and what remains is the work
   order, so two writes with the same name agree on all three parts.
   */
  lemma FileNameInjective(w1: string, i1: nat, e1: string, w2: string, i2: nat, e2: string)
    requires ValidExt(e1) && ValidExt(e2)
    requires FileName(w1, i1, e1) == FileName(w2, i2, e2)
    ensures w1 == w2 && i1 == i2 && e1 == e2
  {
    var d1, d2 := NatToString(i1), NatToString(i2);
    var s1, s2 := w1 + "_" + d1, w2 + "_" + d2;
    assert e1 == ['.'] + e1[1..] && e2 == ['.'] + e2[1..];
    assert FileName(w1, i1, e1) == s1 + ['.'] + e1[1..];
    assert FileName(w2, i2, e2) == s2 + ['.'] + e2[1..];
    CutAtLast(w1 + "_" + d1, e1[1..], w2 + "_" + d2, e2[1..], '.');
    assert '_' !in d1 by { assert forall k :: 0 <= k < |d1| ==> IsDigit(d1[k]); }
    assert '_' !in d2 by { assert forall k :: 0 <= k < |d2| ==> IsDigit(d2[k]); }
    assert w1 + ['_'] + d1 == w2 + ['_'] + d2;
    CutAtLast(w1, d1, w2, d2, '_');
    NatToStringInjective(i1, i2);
  }

  /** `os.path.splitext(url)[1] or ".bin"`. */
  function UrlExt(url: string): (e: string)
    ensures ValidExt(e)
    ensures Ext(url) != [] ==> e == Ext(url)
    ensures Ext(url) == [] ==> e == ".bin"
  {
    var e := Ext(url);
    if e == [] then ".bin" else e
  }

  /** `r.raise_for_status()` raises on client (4xx) and server (5xx) errors. */
  predicate RaisesForStatus(status: int) {
    400 <= status < 600
  }

  /**
   A descriptor that the `in` test cannot examine: `"FileUrl" in f` raises
   `TypeError` for a number, a boolean or `None`.
   */
  predicate IsScalar(f: Json) {
    f.JNull? || f.JBool? || f.JNum?
  }

  /**
   The file one descriptor produces, if any. Only a dict can produce one: a
   string or list descriptor either fails the `in` tests or raises inside
   the `try` when it is indexed with a key, and a non-string `FileUrl` or
   `FileContent` value makes the GET or the decoder raise inside the `try`.
   */
  function SaveDescriptor(workorder: string, idx: nat, f: Json, fetch: Fetcher, decode: Decoder): (w: Option<Write>)
    ensures w.Some? ==> f.JObj? && w.value.workorder == workorder && w.value.idx == idx && ValidExt(w.value.ext)
  {
    match f
    case JObj(m) =>
      if "FileUrl" in m then
        var url := m["FileUrl"];
        if !url.JStr? then None
        else
          var resp := fetch(url.s);
          if resp.GetRaised? || RaisesForStatus(resp.status) then None
          else Some(Write(workorder, idx, UrlExt(url.s), resp.content))
      else if "FileContent" in m then
        var payload := m["FileContent"];
        if !payload.JStr? || decode(payload.s).None? then None
        else Some(Write(workorder, idx, ".bin", decode(payload.s).value))
      else None
    case _ => None
  }

  /**
   The naming rules of one descriptor. `FileUrl` takes precedence: the file
   is written under the URL's extension (or `.bin`) exactly when the GET
   returns a status that `raise_for_status` accepts. Otherwise inline
   `FileContent` is written as `.bin` exactly when it decodes. A descriptor
   with neither key, or one that is not a dict, produces nothing.
   */
  lemma DescriptorNamingRules(workorder: string, idx: nat, f: Json, fetch: Fetcher, decode: Decoder)
    ensures var w := SaveDescriptor(workorder, idx, f, fetch, decode);
            f.JObj? && "FileUrl" in f.fields ==>
              (w.Some? <==> (f.fields["FileUrl"].JStr?
                             && fetch(f.fields["FileUrl"].s).GetResponse?
                             && !RaisesForStatus(fetch(f.fields["FileUrl"].s).status)))
    ensures var w := SaveDescriptor(workorder, idx, f, fetch, decode);
            f.JObj? && "FileUrl" in f.fields && w.Some? ==>
              w.value.ext == UrlExt(f.fields["FileUrl"].s)
              && w.value.content == fetch(f.fields["FileUrl"].s).content
    ensures var w := SaveDescriptor(workorder, idx, f, fetch, decode);
            (f.JObj? && "FileUrl" !in f.fields && "FileContent" in f.fields) ==>
              (w.Some? <==> (f.fields["FileContent"].JStr? && decode(f.fields["FileContent"].s).Some?))
    ensures var w := SaveDescriptor(workorder, idx, f, fetch, decode);
            (f.JObj? && "FileUrl" !in f.fields && "FileContent" in f.fields && w.Some?) ==>
              w.value.ext == ".bin" && w.value.content == decode(f.fields["FileContent"].s).value
    ensures var w := SaveDescriptor(workorder, idx, f, fetch, decode);
            (!f.JObj? || ("FileUrl" !in f.fields && "FileContent" !in f.fields)) ==> w == None
  {
  }

  /** The file of one descriptor as a sequence of zero or one writes. */
  function Produced(w: Option<Write>): seq<Write> {
    match w
    case Some(x) => [x]
    case None => []
  }

  /**
   The loop of `save_files` with every descriptor isolated, from index `i`
   on: each index contributes the file its descriptor produces on its own.
   */
  function SaveFrom(workorder: string, xs: seq<Json>, i: nat, fetch: Fetcher, decode: Decoder): (ws: seq<Write>)
    requires i <= |xs|
    ensures forall k :: 0 <= k < |ws| ==>
              ws[k].workorder == workorder && i <= ws[k].idx < |xs| && ValidExt(ws[k].ext)
    ensures forall k, l :: 0 <= k < l < |ws| ==> ws[k].idx < ws[l].idx
    decreases |xs| - i
  {
    if i == |xs| then []
    else Produced(SaveDescriptor(workorder, i, xs[i], fetch, decode)) + SaveFrom(workorder, xs, i + 1, fetch, decode)
  }

  /**
   Failure isolation: a file is written exactly when its own descriptor
   produces it, whatever the other descriptors do.
   */
  lemma {:induction false} SaveFromIsolated(workorder: string, xs: seq<Json>, i: nat, fetch: Fetcher, decode: Decoder, w: Write)
    requires i <= |xs|
    ensures w in SaveFrom(workorder, xs, i, fetch, decode) <==>
              i <= w.idx < |xs| && SaveDescriptor(workorder, w.idx, xs[w.idx], fetch, decode) == Some(w)
    decreases |xs| - i
  {
    if i < |xs| {
      var head := SaveDescriptor(workorder, i, xs[i], fetch, decode);
      SaveFromIsolated(workorder, xs, i + 1, fetch, decode, w);
      var rest := SaveFrom(workorder, xs, i + 1, fetch, decode);
      InProducedOrRest(head, rest, w);
      if w.idx == i {
        assert w !in rest;
      }
    }
  }

  lemma InProducedOrRest(head: Option<Write>, rest: seq<Write>, w: Write)
    ensures w in Produced(head) + rest <==> head == Some(w) || w in rest
  {
  }

  /**
   `save_files(workorder, files)` with each descriptor isolated. Only a list
   yields descriptors that can be written: iterating a string or a dict
   yields strings, and a number or a boolean cannot be iterated at all.
   */
  function SaveFiles(workorder: string, files: Json, fetch: Fetcher, decode: Decoder): (ws: seq<Write>)
    ensures !files.JArr? ==> ws == []
    ensures forall k :: 0 <= k < |ws| ==> ws[k].workorder == workorder && ValidExt(ws[k].ext)
    ensures forall k, l :: 0 <= k < l < |ws| ==> ws[k].idx < ws[l].idx
  {
    match files
    case JArr(xs) => SaveFrom(workorder, xs, 0, fetch, decode)
    case _ => []
  }

  /**
   The files `save_files` writes for a list are exactly those that each
   descriptor produces on its own: a fetch that raises, a status that
   `raise_for_status` rejects or a payload that does not decode costs only
   its own index.
   */
  lemma SaveFilesIsolated(workorder: string, xs: seq<Json>, fetch: Fetcher, decode: Decoder, w: Write)
    ensures w in SaveFiles(workorder, JArr(xs), fetch, decode) <==>
              w.idx < |xs| && SaveDescriptor(workorder, w.idx, xs[w.idx], fetch, decode) == Some(w)
  {
    SaveFromIsolated(workorder, xs, 0, fetch, decode, w);
  }

  /** Within one work order, no two written files share a name. */
  lemma SaveFilesNamesDistinct(workorder: string, files: Json, fetch: Fetcher, decode: Decoder)
    ensures var ws := SaveFiles(workorder, files, fetch, decode);
            forall k, l :: 0 <= k < l < |ws| ==> ws[k].Name() != ws[l].Name()
  {
    var ws := SaveFiles(workorder, files, fetch, decode);
    if files.JArr? {
      forall k, l | 0 <= k < l < |ws| ensures ws[k].Name() != ws[l].Name() {
        if ws[k].Name() == ws[l].Name() {
          FileNameInjective(ws[k].workorder, ws[k].idx, ws[k].ext, ws[l].workorder, ws[l].idx, ws[l].ext);
        }
      }
    }
  }

  /** Files of different work orders, or of different indices, never share a name. */
  lemma WritesNamesDistinct(a: Write, b: Write)
    requires ValidExt(a.ext) && ValidExt(b.ext)
    requires a.workorder != b.workorder || a.idx != b.idx
    ensures a.Name() != b.Name()
  {
    if a.Name() == b.Name() {
      FileNameInjective(a.workorder, a.idx, a.ext, b.workorder, b.idx, b.ext);
    }
  }

  // ---------------------------------------------------------------------------
  // save_files as written: the `in` tests sit outside the per-descriptor `try`
  // ---------------------------------------------------------------------------

  /** The index of the first scalar descriptor at or after `i`, or `|xs|` when there is none. */
  function FirstScalar(xs: seq<Json>, i: nat): (j: nat)
    requires i <= |xs|
    ensures i <= j <= |xs|
    ensures forall k :: i <= k < j ==> !IsScalar(xs[k])
    ensures j < |xs| ==> IsScalar(xs[j])
    decreases |xs| - i
  {
    if i == |xs| || IsScalar(xs[i]) then i else FirstScalar(xs, i + 1)
  }

  /**
   The loop as the program writes it: a scalar descriptor raises `TypeError`
   at the `in` test, outside the `try`, and the exception leaves `save_files`
   before any later descriptor is looked at. Every file of an index before
   the first scalar is still written, and none after it.
   */
  function SaveFromAsWritten(workorder: string, xs: seq<Json>, i: nat, fetch: Fetcher, decode: Decoder): (ws: seq<Write>)
    requires i <= |xs|
    ensures ws <= SaveFrom(workorder, xs, i, fetch, decode)
    ensures forall w :: w in ws <==> w in SaveFrom(workorder, xs, i, fetch, decode) && w.idx < FirstScalar(xs, i)
    ensures (forall j :: i <= j < |xs| ==> !IsScalar(xs[j])) ==> ws == SaveFrom(workorder, xs, i, fetch, decode)
    decreases |xs| - i
  {
    if i == |xs| || IsScalar(xs[i]) then []
    else Produced(SaveDescriptor(workorder, i, xs[i], fetch, decode)) + SaveFromAsWritten(workorder, xs, i + 1, fetch, decode)
  }

  /**
   `save_files(workorder, files)` as written: for a list, exactly the files of
   the isolated loop whose index comes before the first scalar descriptor.
   */
  function SaveFilesAsWritten(workorder: string, files: Json, fetch: Fetcher, decode: Decoder): (ws: seq<Write>)
    ensures ws <= SaveFiles(workorder, files, fetch, decode)
    ensures files.JArr? ==>
              forall w :: w in ws <==> w in SaveFiles(workorder, files, fetch, decode) && w.idx < FirstScalar(files.items, 0)
    ensures forall k :: 0 <= k < |ws| ==> ws[k].workorder == workorder && ValidExt(ws[k].ext)
    ensures forall k, l :: 0 <= k < l < |ws| ==> ws[k].idx < ws[l].idx
  {
    match files
    case JArr(xs) => SaveFromAsWritten(workorder, xs, 0, fetch, decode)
    case _ => []
  }

  /**
   The input that shows the gap: a list whose first element is a number and
   whose second is well-formed inline content. The program writes nothing;
   the isolated loop writes `WO_1.bin`.
   */
  lemma ScalarDescriptorAbortsSiblings()
    ensures var files := JArr([JNum(5), JObj(map["FileContent" := JStr("QQ==")])]);
            var fetch := (url: string) => GetRaised;
            var decode := (s: string) => Some([65 as byte]);
            && SaveFilesAsWritten("WO", files, fetch, decode) == []
            && SaveFiles("WO", files, fetch, decode) == [Write("WO", 1, ".bin", [65 as byte])]
  {
    var files := JArr([JNum(5), JObj(map["FileContent" := JStr("QQ==")])]);
    var fetch := (url: string) => GetRaised;
    var decode := (s: string) => Some([65 as byte]);
    var xs := files.items;
    assert SaveDescriptor("WO", 1, xs[1], fetch, decode) == Some(Write("WO", 1, ".bin", [65 as byte]));
  }
}
