/** The two stages together: what a client receives for the diagnostics the
    required-attribute validator produces. */
module Pipeline {
  import opened Wrappers
  import opened Hcl
  import opened Protocol
  import opened Diagnostics
  import opened MissingRequiredAttribute

  /** The message a client shows for a missing attribute. */
  function MissingAttributeMessage(name: string): string
  {
    "Required attribute " + Quote(name) + " not specified: An attribute named " + Quote(name) + " is required here"
  }

  /** One validator diagnostic, converted: an Error at the body's protocol
      range, with one action whose only edit, filed under the caller's
      document, inserts at character 0 of the body's last protocol line. */
  lemma ConvertMissingAttributeDiagnostic(name: string, srcRange: Range, source: string)
    ensures MissingAttributeDiagnostic(name, srcRange).severity != DiagInvalid
    ensures var out := HclDiagToLsp(MissingAttributeDiagnostic(name, srcRange), source);
      var at := Position(srcRange.end.line - 1, 0);
      && out.severity == SeverityError
      && out.source == source
      && out.message == MissingAttributeMessage(name)
      && out.range == HclRangeToLsp(srcRange)
      && |out.data.items| == 1
      && out.data.items[0].title == AddMissingAttributeTitle
      && out.data.items[0].changes.Some?
      && out.data.items[0].changes.value.Keys == {source}
      && |out.data.items[0].changes.value[source]| == 1
      && out.data.items[0].changes.value[source][0].range == LspRange(at, at)
  {
    var d := MissingAttributeDiagnostic(name, srcRange);
    var action := d.codeActions[0];
    var e := action.edits[0];
    assert action.edits[KeptFrom(action.edits, source)..] == [e];
    var out := HclDiagToLsp(d, source);
    assert out.data.items[0] == HclCodeActionToLsp(action, source);
    assert out.message == MissingAttributeMessage(name);
  }

  /** Each of `diags` is the diagnostic of one of `names` in a body spanning `srcRange`. */
  ghost predicate AllMissingAttributeDiagnostics(diags: seq<Diagnostic>, names: set<string>, srcRange: Range)
  {
    forall i :: 0 <= i < |diags| ==>
      exists n :: n in names && diags[i] == MissingAttributeDiagnostic(n, srcRange)
  }

  /** Converting missing-attribute diagnostics: each becomes an Error at the
      body with its single quick fix inserting at the start of the body's
      last line, filed under the caller's document. */
  lemma ConvertMissingAttributeDiagnostics(diags: seq<Diagnostic>, names: set<string>, srcRange: Range, source: string)
    requires AllMissingAttributeDiagnostics(diags, names, srcRange)
    ensures NoInvalidSeverity(diags)
    ensures var out := HclDiagsToLsp(NonNil(diags), source);
      var at := Position(srcRange.end.line - 1, 0);
      forall i :: 0 <= i < |out.items| ==>
        && out.items[i].severity == SeverityError
        && out.items[i].source == source
        && out.items[i].range == HclRangeToLsp(srcRange)
        && |out.items[i].data.items| == 1
        && out.items[i].data.items[0].changes.Some?
        && out.items[i].data.items[0].changes.value.Keys == {source}
        && out.items[i].data.items[0].changes.value[source][0].range == LspRange(at, at)
  {
    forall i | 0 <= i < |diags|
      ensures diags[i].severity != DiagInvalid
    {
      var m :| m in names && diags[i] == MissingAttributeDiagnostic(m, srcRange);
    }
    var out := HclDiagsToLsp(NonNil(diags), source);
    var at := Position(srcRange.end.line - 1, 0);
    forall i | 0 <= i < |out.items|
      ensures out.items[i].severity == SeverityError && out.items[i].source == source
      ensures out.items[i].range == HclRangeToLsp(srcRange) && |out.items[i].data.items| == 1
      ensures out.items[i].data.items[0].changes.Some?
      ensures out.items[i].data.items[0].changes.value.Keys == {source}
      ensures out.items[i].data.items[0].changes.value[source][0].range == LspRange(at, at)
    {
      var m :| m in names && diags[i] == MissingAttributeDiagnostic(m, srcRange);
      ConvertMissingAttributeDiagnostic(m, srcRange, source);
    }
  }

  /** Converting a visit's diagnostics yields one protocol diagnostic per
      missing required attribute, shaped as above, and each missing attribute
      is named in some converted message. */
  lemma ValidatorOutputConverts(attrs: map<string, Attribute>, srcRange: Range, schema: Option<Schema>,
                                order: seq<string>, source: string)
    requires ValidBodySchema(schema, order)
    ensures var diags := VisitBody(attrs, srcRange, schema, order).1.Elems();
      && AllMissingAttributeDiagnostics(diags, MissingRequiredNames(schema, attrs), srcRange)
      && NoInvalidSeverity(diags)
      && |HclDiagsToLsp(NonNil(diags), source).items| == |MissingRequiredNames(schema, attrs)|
      && (forall n :: n in MissingRequiredNames(schema, attrs) ==>
            exists i :: 0 <= i < |diags| && HclDiagsToLsp(NonNil(diags), source).items[i].message == MissingAttributeMessage(n))
  {
    var diags := VisitBody(attrs, srcRange, schema, order).1.Elems();
    var names := MissingRequiredNames(schema, attrs);
    ConvertMissingAttributeDiagnostics(diags, names, srcRange, source);
    ConvertedMessagesNameAll(diags, names, srcRange, source);
  }

  /** When each of `names` has its diagnostic among `diags`, each is named in
      some converted message. */
  lemma ConvertedMessagesNameAll(diags: seq<Diagnostic>, names: set<string>, srcRange: Range, source: string)
    requires NoInvalidSeverity(diags)
    requires forall n :: n in names ==> MissingAttributeDiagnostic(n, srcRange) in diags
    ensures forall n :: n in names ==>
      exists i :: 0 <= i < |diags| && HclDiagsToLsp(NonNil(diags), source).items[i].message == MissingAttributeMessage(n)
  {
    var out := HclDiagsToLsp(NonNil(diags), source);
    forall n | n in names
      ensures exists i :: 0 <= i < |diags| && out.items[i].message == MissingAttributeMessage(n)
    {
      var i :| 0 <= i < |diags| && diags[i] == MissingAttributeDiagnostic(n, srcRange);
      ConvertMissingAttributeDiagnostic(n, srcRange, source);
      assert out.items[i].message == MissingAttributeMessage(n);
    }
  }

  /** The validator's fixes each hold a single edit, on which the grouping as
      written and the intended grouping agree. */
  lemma ValidatorFixesGroupAlike(name: string, srcRange: Range, source: string)
    ensures var action := MissingAttributeDiagnostic(name, srcRange).codeActions[0];
      GroupEdits(action.edits, source) == GroupEditsUnderSource(action.edits, source)
  {
    var action := MissingAttributeDiagnostic(name, srcRange).codeActions[0];
    var e := action.edits[0];
    assert action.edits[KeptFrom(action.edits, source)..] == [e];
    SingleKeyMap(GroupEdits(action.edits, source).value, source);
    SingleKeyMap(GroupEditsUnderSource(action.edits, source).value, source);
  }
}
