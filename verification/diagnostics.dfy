/** Conversion of HCL diagnostics and code actions into Language Server
    Protocol objects (internal/lsp/diagnostics.go). */
module Diagnostics {
  import opened Wrappers
  import opened Hcl
  import opened Protocol

  // ---------------------------------------------------------------------
  // Coordinates
  // ---------------------------------------------------------------------

  /** HCL counts lines and columns from 1, the protocol from 0. A column is
      taken as a raw character count. */
  function HclPosToLsp(p: Pos): (r: Position)
  {
    Position(p.line - 1, p.column - 1)
  }

  /** The inverse direction, used to state that the conversion loses nothing
      but the file name. */
  function LspPosToHcl(p: Position): (r: Pos)
  {
    Pos(p.line + 1, p.character + 1)
  }

  /** Range conversion: both ends are shifted; the file name is dropped,
      because the protocol names the document elsewhere. */
  function HclRangeToLsp(rng: Range): (r: LspRange)
    ensures r.start == HclPosToLsp(rng.start) && r.end == HclPosToLsp(rng.end)
    ensures rng.start == rng.end <==> r.start == r.end
  {
    LspRange(HclPosToLsp(rng.start), HclPosToLsp(rng.end))
  }

  function LspRangeToHcl(r: LspRange, filename: string): Range
  {
    Range(filename, LspPosToHcl(r.start), LspPosToHcl(r.end))
  }

  /** Converting to the protocol and back restores the range exactly. */
  lemma RangeRoundTrip(rng: Range)
    ensures LspRangeToHcl(HclRangeToLsp(rng), rng.filename) == rng
  {
  }

  /** ... and every protocol range is the image of exactly one HCL range per file. */
  lemma RangeRoundTripBack(r: LspRange, filename: string)
    ensures HclRangeToLsp(LspRangeToHcl(r, filename)) == r
  {
  }

  /** The worked example: line 1, column 2 is protocol line 0, character 1. */
  lemma PositionExample()
    ensures HclPosToLsp(Pos(1, 2)) == Position(0, 1)
  {
  }

  // ---------------------------------------------------------------------
  // Severity and message
  // ---------------------------------------------------------------------

  /** Error and Warning map to their protocol counterparts; any other value
      but Invalid maps to the zero severity. Invalid aborts the server, so it
      is excluded by the precondition. */
  function HclSeverityToLsp(severity: Hcl.DiagnosticSeverity): (r: Protocol.DiagnosticSeverity)
    requires severity != DiagInvalid
    ensures r == SeverityError <==> severity == DiagError
    ensures r == SeverityWarning <==> severity == DiagWarning
    ensures r == SeverityUnset <==> severity != DiagError && severity != DiagWarning
  {
    if severity == DiagError then SeverityError
    else if severity == DiagWarning then SeverityWarning
    else SeverityUnset
  }

  /** Reading a protocol severity back as an HCL one, for the two severities
      HCL and the protocol share. */
  function LspSeverityToHcl(severity: Protocol.DiagnosticSeverity): Hcl.DiagnosticSeverity
  {
    if severity == SeverityError then DiagError
    else if severity == SeverityWarning then DiagWarning
    else DiagInvalid
  }

  lemma SeverityRoundTrip(severity: Hcl.DiagnosticSeverity)
    requires severity == DiagError || severity == DiagWarning
    ensures LspSeverityToHcl(HclSeverityToLsp(severity)) == severity
  {
  }

  /** The protocol message: the summary alone when there is no detail,
      otherwise summary, a colon and a space, then the detail. */
  function Message(summary: string, detail: string): (r: string)
    ensures |detail| == 0 ==> r == summary
    ensures |detail| > 0 ==> |r| == |summary| + 2 + |detail|
  {
    if detail == "" then summary else summary + ": " + detail
  }

  /** The message can be taken apart again: it starts with the summary and,
      when there is a detail, ends with it after the ": " separator. */
  lemma MessageSplits(summary: string, detail: string)
    ensures Message(summary, detail)[..|summary|] == summary
    ensures |detail| > 0 ==>
      && Message(summary, detail)[|summary|..|summary| + 2] == ": "
      && Message(summary, detail)[|summary| + 2..] == detail
  {
    var m := Message(summary, detail);
    if |detail| > 0 {
      assert m == summary + ": " + detail;
      assert m[..|summary|] == summary;
      assert m[|summary|..|summary| + 2] == ": ";
      assert m[|summary| + 2..] == detail;
    }
  }

  // ---------------------------------------------------------------------
  // Code actions
  // ---------------------------------------------------------------------

  function HclTextEditToLsp(e: TextEdit): LspTextEdit
  {
    LspTextEdit(HclRangeToLsp(e.range), e.newText)
  }

  /** Element-wise conversion of a sequence of edits, as a reference. */
  function ConvertEdits(edits: seq<TextEdit>): (r: seq<LspTextEdit>)
    ensures |r| == |edits|
    ensures forall i :: 0 <= i < |edits| ==> r[i] == HclTextEditToLsp(edits[i])
  {
    seq(|edits|, i requires 0 <= i < |edits| => HclTextEditToLsp(edits[i]))
  }

  /** Reads a map the way Go does: a missing key yields an empty (nil) slice. */
  function Lookup(m: map<string, seq<LspTextEdit>>, key: string): (r: seq<LspTextEdit>)
    ensures key !in m ==> r == []
  {
    if key in m then m[key] else []
  }

  /** The first index of the run of edits that `GroupEdits` keeps: one past
      the last edit whose own file name is not `source`, or that edit itself.
      Precisely, it is the last index of an edit naming another file, or 0
      when there is none. */
  function KeptFrom(edits: seq<TextEdit>, source: string): (k: nat)
    ensures |edits| == 0 ==> k == 0
    ensures |edits| > 0 ==> k < |edits|
    ensures forall j :: k < j < |edits| ==> edits[j].range.filename == source
    ensures (exists j :: 0 <= j < |edits| && edits[j].range.filename != source) ==>
      edits[k].range.filename != source
    ensures (forall j :: 0 <= j < |edits| ==> edits[j].range.filename == source) ==> k == 0
  {
    if |edits| == 0 then 0
    else if edits[|edits| - 1].range.filename != source then |edits| - 1
    else KeptFrom(edits[..|edits| - 1], source)
  }

  /** The edit grouping loop as written: every edit is stored under `source`,
      but appended to the slice read from the edit's own file name. The map
      stays nil when there are no edits. The result is all the edits, in
      order, when each names `source`; otherwise only the edits from the last
      one naming another file onwards survive. */
  function GroupEdits(edits: seq<TextEdit>, source: string): (r: Option<map<string, seq<LspTextEdit>>>)
    ensures r.None? <==> |edits| == 0
    ensures r.Some? ==> r.value.Keys == {source}
    ensures r.Some? ==> r.value[source] == ConvertEdits(edits[KeptFrom(edits, source)..])
  {
    if |edits| == 0 then None
    else
      var prefix := edits[..|edits| - 1];
      var changes := GroupEdits(prefix, source).GetOr(map[]);
      var last := edits[|edits| - 1];
      KeptFromStep(edits, source);
      ConvertEditsSnoc(prefix[KeptFrom(prefix, source)..], last);
      Some(changes[source := Lookup(changes, last.range.filename) + [HclTextEditToLsp(last)]])
  }

  /** How the kept run changes when one edit is appended. */
  lemma KeptFromStep(edits: seq<TextEdit>, source: string)
    requires |edits| > 0
    ensures var prefix := edits[..|edits| - 1];
      var last := edits[|edits| - 1];
      if last.range.filename != source then
        edits[KeptFrom(edits, source)..] == [last]
      else
        && KeptFrom(edits, source) == KeptFrom(prefix, source)
        && edits[KeptFrom(edits, source)..] == prefix[KeptFrom(prefix, source)..] + [last]
  {
  }

  lemma ConvertEditsSnoc(edits: seq<TextEdit>, e: TextEdit)
    ensures ConvertEdits(edits + [e]) == ConvertEdits(edits) + [HclTextEditToLsp(e)]
  {
  }

  /** The grouping the loop's own write key implies: every edit of one action
      is kept, in order, under `source`, the only key the loop assigns to,
      whatever file name an edit records. The repository's test expects the
      edits under that single document key. */
  function GroupEditsUnderSource(edits: seq<TextEdit>, source: string): (r: Option<map<string, seq<LspTextEdit>>>)
    ensures r.None? <==> |edits| == 0
    ensures r.Some? ==> r.value.Keys == {source} && r.value[source] == ConvertEdits(edits)
  {
    if |edits| == 0 then None
    else
      var changes := GroupEditsUnderSource(edits[..|edits| - 1], source).GetOr(map[]);
      var last := edits[|edits| - 1];
      Some(changes[source := Lookup(changes, source) + [HclTextEditToLsp(last)]])
  }

  /** A map whose only key is `k` is the one-entry map display. */
  lemma SingleKeyMap<V>(m: map<string, V>, k: string)
    requires m.Keys == {k}
    ensures m == map[k := m[k]]
  {
  }

  /** When every edit names the caller's document, nothing is lost. */
  lemma GroupEditsAllLocal(edits: seq<TextEdit>, source: string)
    requires |edits| > 0
    requires forall i :: 0 <= i < |edits| ==> edits[i].range.filename == source
    ensures GroupEdits(edits, source) == Some(map[source := ConvertEdits(edits)])
  {
    var r := GroupEdits(edits, source);
    assert KeptFrom(edits, source) == 0;
    assert edits[0..] == edits;
    SingleKeyMap(r.value, source);
  }

  /** When the last edit names another file, only that edit survives. */
  lemma GroupEditsLastForeign(edits: seq<TextEdit>, source: string)
    requires |edits| > 0
    requires edits[|edits| - 1].range.filename != source
    ensures GroupEdits(edits, source) == Some(map[source := [HclTextEditToLsp(edits[|edits| - 1])]])
  {
    var r := GroupEdits(edits, source);
    var last := edits[|edits| - 1];
    assert edits[|edits| - 1..] == [last];
    assert r.value[source] == ConvertEdits([last]) == [HclTextEditToLsp(last)];
    SingleKeyMap(r.value, source);
  }

  /** Both groupings agree whenever every edit names the caller's document,
      in particular for a single edit naming it. */
  lemma GroupingsAgreeWhenLocal(edits: seq<TextEdit>, source: string)
    requires forall i :: 0 <= i < |edits| ==> edits[i].range.filename == source
    ensures GroupEdits(edits, source) == GroupEditsUnderSource(edits, source)
  {
    if |edits| > 0 {
      GroupEditsAllLocal(edits, source);
    }
  }

  /** Two edits recorded against "other.tf", converted for "main.tf": the
      first edit is lost, although the intended grouping keeps both. */
  lemma GroupEditsDropsEarlierEdits()
    ensures (var rng := Range("other.tf", Pos(1, 1), Pos(1, 1));
             var edits := [TextEdit(rng, "a"), TextEdit(rng, "b")];
             && GroupEdits(edits, "main.tf") == Some(map["main.tf" := [HclTextEditToLsp(edits[1])]])
             && GroupEditsUnderSource(edits, "main.tf").value["main.tf"] == ConvertEdits(edits)
             && |ConvertEdits(edits)| == 2)
  {
    var rng := Range("other.tf", Pos(1, 1), Pos(1, 1));
    var edits := [TextEdit(rng, "a"), TextEdit(rng, "b")];
    GroupEditsLastForeign(edits, "main.tf");
  }

  /** A code action: the message becomes the title, the kind is copied, and
      the edits are grouped as described at `GroupEdits`. */
  function HclCodeActionToLsp(action: CodeAction, source: string): (r: LspCodeAction)
    ensures r.title == action.message && r.kind == action.kind
    ensures r.changes.None? <==> |action.edits| == 0
    ensures r.changes.Some? ==> r.changes.value.Keys == {source}
    ensures r.changes.Some? ==>
      r.changes.value[source] == ConvertEdits(action.edits[KeptFrom(action.edits, source)..])
  {
    LspCodeAction(action.message, action.kind, GroupEdits(action.edits, source))
  }

  /** The two cases the repository's own test spells out: no edits gives a
      nil change map; one edit at line 1, column 2 becomes a protocol edit at
      line 0, character 1 under the document's name. */
  lemma CodeActionExamples()
    ensures HclCodeActionToLsp(CodeAction("test", "quickfix", []), "testfile")
         == LspCodeAction("test", "quickfix", None)
    ensures (var p := Pos(1, 2);
             var e := TextEdit(Range("testfile", p, p), "Append this text");
             var q := Position(0, 1);
             var want := Some(map["testfile" := [LspTextEdit(LspRange(q, q), "Append this text")]]);
             HclCodeActionToLsp(CodeAction("test with edits", "quickfix", [e]), "testfile") ==
               LspCodeAction("test with edits", "quickfix", want))
  {
    var p := Pos(1, 2);
    var e := TextEdit(Range("testfile", p, p), "Append this text");
    GroupEditsAllLocal([e], "testfile");
    assert ConvertEdits([e]) == [HclTextEditToLsp(e)];
  }

  function ConvertCodeActions(actions: seq<CodeAction>, source: string): (r: seq<LspCodeAction>)
    ensures |r| == |actions|
    ensures forall i :: 0 <= i < |actions| ==> r[i] == HclCodeActionToLsp(actions[i], source)
  {
    if |actions| == 0 then []
    else ConvertCodeActions(actions[..|actions| - 1], source)
         + [HclCodeActionToLsp(actions[|actions| - 1], source)]
  }

  /** Code actions are converted one by one, in order, into a non-nil slice
      even when there are none. */
  function HclCodeActionsToLsp(actions: seq<CodeAction>, source: string): (r: Slice<LspCodeAction>)
    ensures r.NonNil?
    ensures |r.items| == |actions|
    ensures forall i :: 0 <= i < |actions| ==> r.items[i] == HclCodeActionToLsp(actions[i], source)
  {
    NonNil(ConvertCodeActions(actions, source))
  }

  // ---------------------------------------------------------------------
  // Diagnostics
  // ---------------------------------------------------------------------

  /** One diagnostic, as the body of the conversion loop builds it. */
  function HclDiagToLsp(d: Diagnostic, source: string): (r: LspDiagnostic)
    requires d.severity != DiagInvalid
    ensures r.source == source
    ensures r.severity == HclSeverityToLsp(d.severity)
    ensures r.message == Message(d.summary, d.detail)
    ensures d.subject.None? ==> r.range == ZeroRange
    ensures d.subject.Some? ==> r.range == HclRangeToLsp(d.subject.value)
    ensures r.data.NonNil? && |r.data.items| == |d.codeActions|
    ensures forall i :: 0 <= i < |d.codeActions| ==>
      r.data.items[i] == HclCodeActionToLsp(d.codeActions[i], source)
  {
    var rng := match d.subject
      case None => ZeroRange
      case Some(s) => HclRangeToLsp(s);
    LspDiagnostic(rng, HclSeverityToLsp(d.severity), source, Message(d.summary, d.detail),
                  HclCodeActionsToLsp(d.codeActions, source))
  }

  predicate NoInvalidSeverity(diags: seq<Diagnostic>)
  {
    forall i :: 0 <= i < |diags| ==> diags[i].severity != DiagInvalid
  }

  function ConvertDiags(diags: seq<Diagnostic>, source: string): (r: seq<LspDiagnostic>)
    requires NoInvalidSeverity(diags)
    ensures |r| == |diags|
    ensures forall i :: 0 <= i < |diags| ==> r[i] == HclDiagToLsp(diags[i], source)
  {
    if |diags| == 0 then []
    else ConvertDiags(diags[..|diags| - 1], source)
         + [HclDiagToLsp(diags[|diags| - 1], source)]
  }

  /** Diagnostics are converted one by one, in order. The result is never the
      nil slice, also for a nil or empty input. */
  function HclDiagsToLsp(diags: Slice<Diagnostic>, source: string): (r: Slice<LspDiagnostic>)
    requires NoInvalidSeverity(diags.Elems())
    ensures r.NonNil?
    ensures |r.items| == |diags.Elems()|
    ensures forall i :: 0 <= i < |r.items| ==> r.items[i] == HclDiagToLsp(diags.Elems()[i], source)
  {
    NonNil(ConvertDiags(diags.Elems(), source))
  }

  /** The repository's test: nil, empty and one-element inputs all give a
      non-nil result, and the lone Error diagnostic keeps its severity. */
  lemma NeverNilExamples()
    ensures HclDiagsToLsp(Nil, "test") == NonNil([])
    ensures HclDiagsToLsp(NonNil([]), "test") == NonNil([])
    ensures (var d := Diagnostic(DiagError, "", "", None, []);
             var want := LspDiagnostic(ZeroRange, SeverityError, "source", "", NonNil([]));
             HclDiagsToLsp(NonNil([d]), "source") == NonNil([want]))
  {
    var d := Diagnostic(DiagError, "", "", None, []);
    assert ConvertCodeActions([], "source") == [];
    assert HclDiagToLsp(d, "source") == LspDiagnostic(ZeroRange, SeverityError, "source", "", NonNil([]));
  }
}
