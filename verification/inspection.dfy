/**
 The work-order side of the inspection app: the record `fetch_work_order_info`
 builds from the confirmation lookup, and the `WORK ORDER CONTEXT` block that
 `process_media_files` puts into the analysis prompt.

 The lookup itself (the request with its retries, `raise_for_status` and
 `response.json()`) is input data: either the decoded body or the text of the
 exception one of them raised. Python's `str()` of a list or dict is a
 parameter, `repr`.
 */
module Inspection {
  import opened Values
  import opened Strings
  import opened Seqs
  import Identifiers

  /** What the request and the decoding produced: a body, or `str(e)` of what they raised. */
  datatype FetchOutcome = Failed(message: string) | Decoded(data: Json)

  /** `type(j).__name__` for the values a decoded body can hold. */
  function TypeName(j: Json): string {
    match j
    case JNull => "NoneType"
    case JBool(_) => "bool"
    case JNum(_) => "int"
    case JStr(_) => "str"
    case JArr(_) => "list"
    case JObj(_) => "dict"
  }

  /** `{"success": False, "error": message}`. */
  function ErrorRecord(message: string): Json {
    JObj(map["success" := JBool(false), "error" := JStr(message)])
  }

  /** The keys of a successful record. */
  const InfoKeys: set<string> := {"success", "work_order_number", "client_description", "entity_name", "trades"}

  /** The lookup confirmed the work order: the body is a dict whose `valid` entry is truthy. */
  predicate Confirmed(outcome: FetchOutcome) {
    outcome.Decoded? && outcome.data.JObj? && Truthy(Get(outcome.data.fields, "valid"))
  }

  /**
   `fetch_work_order_info`: the confirmed fields copied into a success record,
   or an error record carrying the reason. Calling `.get` on a body that is
   not a dict raises `AttributeError`, whose text becomes the error.
   */
  function FetchWorkOrderInfo(outcome: FetchOutcome): (info: Json)
    ensures info.JObj? && "success" in info.fields
    ensures info.fields["success"] == JBool(Confirmed(outcome))
    ensures Confirmed(outcome) ==>
              && info.fields.Keys == InfoKeys
              && info.fields["work_order_number"] == Get(outcome.data.fields, "work_order_number")
              && info.fields["client_description"] == Get(outcome.data.fields, "client_description")
              && info.fields["entity_name"] == Get(outcome.data.fields, "entity_name")
              && info.fields["trades"] == (if "trades" in outcome.data.fields then outcome.data.fields["trades"] else JArr([]))
    ensures !Confirmed(outcome) ==> info.fields.Keys == {"success", "error"}
    ensures outcome.Failed? ==> info.fields["error"] == JStr(outcome.message)
    ensures outcome.Decoded? && outcome.data.JObj? && !Confirmed(outcome) ==>
              info.fields["error"] == JStr("Invalid work order number")
    ensures outcome.Decoded? && !outcome.data.JObj? ==>
              info.fields["error"] == JStr("'" + TypeName(outcome.data) + "' object has no attribute 'get'")
  {
    match outcome
    case Failed(message) => ErrorRecord(message)
    case Decoded(data) =>
      if !data.JObj? then ErrorRecord("'" + TypeName(data) + "' object has no attribute 'get'")
      else if Truthy(Get(data.fields, "valid")) then
        var m := data.fields;
        JObj(map[
          "success" := JBool(true),
          "work_order_number" := Get(m, "work_order_number"),
          "client_description" := Get(m, "client_description"),
          "entity_name" := Get(m, "entity_name"),
          "trades" := GetOr(m, "trades", JArr([]))])
      else ErrorRecord("Invalid work order number")
  }

  /** How an f-string shows a value: strings as they are, the rest as `str()` does. */
  function Display(j: Json, repr: Json -> string): string {
    match j
    case JNull => "None"
    case JBool(b) => if b then "True" else "False"
    case JNum(n) => IntToString(n)
    case JStr(s) => s
    case _ => repr(j)
  }

  /** The trades line before formatting: the trades it lists, and whether `...` follows. */
  datatype TradesLine = TradesLine(shown: seq<string>, more: bool)

  function Min(a: nat, b: nat): nat {
    if a < b then a else b
  }

  function StrOf(j: Json): string {
    if j.JStr? then j.s else ""
  }

  /**
   `trades[:10]` joined, and `len(trades) > 10`. A list contributes its first
   ten elements, which must all be strings for `join` to succeed; a string
   contributes its first ten characters. Anything else cannot be sliced, and
   the result is `None`: the f-string raises.
   */
  function Trades(trades: Json): (t: Option<TradesLine>)
    ensures t.Some? ==> |t.value.shown| <= 10
    ensures t.Some? && trades.JArr? ==>
              && |t.value.shown| == Min(10, |trades.items|)
              && (forall k :: 0 <= k < |t.value.shown| ==> trades.items[k] == JStr(t.value.shown[k]))
              && (t.value.more <==> |trades.items| > 10)
    ensures t.Some? && trades.JStr? ==>
              && |t.value.shown| == Min(10, |trades.s|)
              && (forall k :: 0 <= k < |t.value.shown| ==> t.value.shown[k] == [trades.s[k]])
              && (t.value.more <==> |trades.s| > 10)
    ensures t.None? <==>
              || (!trades.JArr? && !trades.JStr?)
              || (trades.JArr? && exists k :: 0 <= k < Min(10, |trades.items|) && !trades.items[k].JStr?)
  {
    match trades
    case JArr(items) =>
      var n := Min(10, |items|);
      if forall k :: 0 <= k < n ==> items[k].JStr? then
        Some(TradesLine(seq(n, k requires 0 <= k < n => StrOf(items[k])), |items| > 10))
      else None
    case JStr(s) =>
      var n := Min(10, |s|);
      Some(TradesLine(seq(n, k requires 0 <= k < n => [s[k]]), |s| > 10))
    case _ => None
  }

  /** `', '.join(trades[:10])`, then `...` when there are more. */
  function TradesText(t: TradesLine): (text: string)
    ensures var joined := Join(", ", t.shown);
            && |text| == |joined| + (if t.more then 3 else 0)
            && text[..|joined|] == joined
            && (t.more ==> text[|joined|..] == "...")
  {
    Join(", ", t.shown) + (if t.more then "..." else "")
  }

  /** The six lines of a rendered block: blank, heading, number, description, trades, blank. */
  function ContextLines(num: string, desc: string, t: TradesLine): seq<string> {
    ["",
     "WORK ORDER CONTEXT:",
     "- Work Order Number: " + num,
     "- Client Description: " + desc,
     "- Relevant Trades: " + TradesText(t),
     ""]
  }

  /**
   The block of the prompt for a work order's number, description and
   trades: its six lines joined with `\n`.
   */
  function Render(num: string, desc: string, t: TradesLine): (block: string)
    ensures block == Join("\n", ContextLines(num, desc, t))
  {
    var ls := ContextLines(num, desc, t);
    var l2, l3, l4 := "- Work Order Number: " + num, "- Client Description: " + desc, "- Relevant Trades: " + TradesText(t);
    JoinSnoc("\n", [""], "WORK ORDER CONTEXT:");
    assert [""] + ["WORK ORDER CONTEXT:"] == ls[..2];
    assert "" + "\n" + "WORK ORDER CONTEXT:" == "\n" + "WORK ORDER CONTEXT:";
    JoinSnoc("\n", ls[..2], l2);
    assert ls[..2] + [l2] == ls[..3];
    JoinSnoc("\n", ls[..3], l3);
    assert ls[..3] + [l3] == ls[..4];
    JoinSnoc("\n", ls[..4], l4);
    assert ls[..4] + [l4] == ls[..5];
    JoinSnoc("\n", ls[..5], "");
    assert ls[..5] + [""] == ls;
    "\n" + "WORK ORDER CONTEXT:"
    + "\n" + ("- Work Order Number: " + num)
    + "\n" + ("- Client Description: " + desc)
    + "\n" + ("- Relevant Trades: " + TradesText(t))
    + "\n"
  }

  /** `work_order_info and work_order_info.get("success")`, for a dict or a falsy value. */
  predicate OpensContext(info: Json) {
    info.JObj? && Truthy(info) && Truthy(Get(info.fields, "success"))
  }

  /**
   The `work_order_context` string of `process_media_files`: empty unless the
   record is truthy and successful, otherwise the rendered block with the
   defaults `""`, `[]` and `""` for a missing description, trades list and
   number. `None` when building it raises: `.get` on a truthy value that is
   not a dict, or trades that cannot be sliced and joined.
   */
  function WorkOrderContext(info: Json, repr: Json -> string): (r: Option<string>)
    ensures !Truthy(info) ==> r == Some("")
    ensures Truthy(info) && !info.JObj? ==> r.None?
    ensures info.JObj? && !OpensContext(info) ==> r == Some("")
    ensures OpensContext(info) ==>
              var t := Trades(GetOr(info.fields, "trades", JArr([])));
              && (r.Some? <==> t.Some?)
              && (r.Some? ==> r.value == Render(Display(GetOr(info.fields, "work_order_number", JStr("")), repr),
                                                Display(GetOr(info.fields, "client_description", JStr("")), repr),
                                                t.value))
  {
    if !Truthy(info) then Some("")
    else if !info.JObj? then None
    else if !Truthy(Get(info.fields, "success")) then Some("")
    else
      var m := info.fields;
      var desc := Display(GetOr(m, "client_description", JStr("")), repr);
      var num := Display(GetOr(m, "work_order_number", JStr("")), repr);
      match Trades(GetOr(m, "trades", JArr([])))
      case None => None
      case Some(t) => Some(Render(num, desc, t))
  }

  // ---------------------------------------------------------------------------
  // Properties of the rendered block
  // ---------------------------------------------------------------------------

  /**
   When the number, the description and the listed trades hold no line
   break, splitting the block into lines gives back exactly its six lines:
   the number, the description and the trades each sit on a line of their own.
   */
  lemma ContextLinesRoundTrip(num: string, desc: string, t: TradesLine)
    requires Identifiers.NoBreak(num) && Identifiers.NoBreak(desc)
    requires forall k :: 0 <= k < |t.shown| ==> Identifiers.NoBreak(t.shown[k])
    ensures Identifiers.SplitLines(Render(num, desc, t)) == ContextLines(num, desc, t)
  {
    var ls := ContextLines(num, desc, t);
    LabelsHaveNoBreaks();
    Identifiers.JoinNoBreak(", ", t.shown);
    var dots := if t.more then "..." else "";
    Identifiers.ConcatNoBreak("- Work Order Number: ", num);
    Identifiers.ConcatNoBreak("- Client Description: ", desc);
    Identifiers.ConcatNoBreak(Join(", ", t.shown), dots);
    Identifiers.ConcatNoBreak("- Relevant Trades: ", TradesText(t));
    forall k | 0 <= k < |ls| ensures Identifiers.NoBreak(ls[k]) {
    }
    Identifiers.JoinSplitLines(ls);
  }

  /** The fixed text of the block holds no line break. */
  lemma LabelsHaveNoBreaks()
    ensures Identifiers.NoBreak("WORK ORDER CONTEXT:")
    ensures Identifiers.NoBreak("- Work Order Number: ")
    ensures Identifiers.NoBreak("- Client Description: ")
    ensures Identifiers.NoBreak("- Relevant Trades: ")
    ensures Identifiers.NoBreak(", ") && Identifiers.NoBreak("...") && Identifiers.NoBreak("")
  {
  }

  /** Every trade the block lists appears in it, word for word. */
  lemma ShownTradeInContext(num: string, desc: string, t: TradesLine, i: nat)
    requires i < |t.shown|
    ensures Contains(Render(num, desc, t), t.shown[i])
  {
    var head := RenderHead(num, desc);
    var tail := (if t.more then "..." else "") + "\n";
    JoinContains(", ", t.shown, i);
    ContainsSurrounded(head, Join(", ", t.shown), tail, t.shown[i]);
    RenderAroundTrades(num, desc, t);
  }

  /** Everything the block shows before the list of trades. */
  function RenderHead(num: string, desc: string): string {
    "\n" + "WORK ORDER CONTEXT:"
    + "\n" + ("- Work Order Number: " + num)
    + "\n" + ("- Client Description: " + desc)
    + "\n" + "- Relevant Trades: "
  }

  lemma RenderAroundTrades(num: string, desc: string, t: TradesLine)
    ensures Render(num, desc, t) == RenderHead(num, desc) + Join(", ", t.shown) + ((if t.more then "..." else "") + "\n")
  {
    var front := "\n" + "WORK ORDER CONTEXT:"
                 + "\n" + ("- Work Order Number: " + num)
                 + "\n" + ("- Client Description: " + desc)
                 + "\n";
    Regroup(front, "- Relevant Trades: ", TradesText(t), "\n");
    Regroup(RenderHead(num, desc), Join(", ", t.shown), if t.more then "..." else "", "\n");
  }

  // ---------------------------------------------------------------------------
  // The lookup record and the context, together
  // ---------------------------------------------------------------------------

  /** A lookup that failed, or did not confirm the work order, adds no context to the prompt. */
  lemma UnconfirmedLookupAddsNoContext(outcome: FetchOutcome, repr: Json -> string)
    requires !Confirmed(outcome)
    ensures WorkOrderContext(FetchWorkOrderInfo(outcome), repr) == Some("")
  {
  }

  /**
   For a confirmed lookup, the block shows the fields exactly as the lookup
   returned them. The record always carries the number and the description,
   so the `""` defaults never apply: a field the lookup left out shows as
   `None`.
   */
  lemma ConfirmedLookupContext(outcome: FetchOutcome, repr: Json -> string)
    requires Confirmed(outcome)
    ensures var m := outcome.data.fields;
            var t := Trades(GetOr(m, "trades", JArr([])));
            WorkOrderContext(FetchWorkOrderInfo(outcome), repr) ==
              if t.None? then None
              else Some(Render(Display(Get(m, "work_order_number"), repr),
                               Display(Get(m, "client_description"), repr), t.value))
  {
    var info := FetchWorkOrderInfo(outcome);
    var m := outcome.data.fields;
    assert "work_order_number" in info.fields && "client_description" in info.fields && "trades" in info.fields;
    assert GetOr(info.fields, "work_order_number", JStr("")) == Get(m, "work_order_number");
    assert GetOr(info.fields, "client_description", JStr("")) == Get(m, "client_description");
    assert GetOr(info.fields, "trades", JArr([])) == GetOr(m, "trades", JArr([]));
  }

  /**
   A confirmed lookup without a description shows `None` in the description
   line, whatever trades it lists; when its trades cannot be shown, there is
   no block at all.
   */
  lemma MissingDescriptionShowsNone(outcome: FetchOutcome, repr: Json -> string)
    requires Confirmed(outcome)
    requires "client_description" !in outcome.data.fields
    ensures var m := outcome.data.fields;
            var num := Display(Get(m, "work_order_number"), repr);
            var t := Trades(GetOr(m, "trades", JArr([])));
            WorkOrderContext(FetchWorkOrderInfo(outcome), repr) ==
              if t.Some? then Some(Render(num, "None", t.value)) else None
  {
    ConfirmedLookupContext(outcome, repr);
  }
}
