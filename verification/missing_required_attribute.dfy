/** The required-attribute validator of the module decoder
    (internal/features/modules/decoder/validations/missing_required_attribute.go).
    It is called once per syntax node by an external pre-order walker. A body
    that lacks attributes its schema requires gets one Error diagnostic per
    missing attribute, each with a quick fix, and a null placeholder for each
    such attribute is added to the body so that later passes do not report
    the absence again. Top-level provider blocks switch the check off for
    their whole subtree. */
module MissingRequiredAttribute {
  import opened Wrappers
  import opened Hcl

  /** The block type whose subtree is exempt at the top level. */
  const ProviderBlockType := "provider"

  const AddMissingAttributeTitle := "Add missing attribute"

  /** The code action kind the fix is offered under. */
  const QuickfixAddMissingAttributes := "quickfix"

  // ---------------------------------------------------------------------
  // Traversal context
  // ---------------------------------------------------------------------

  /** What the walker's context carries for this validator: whether required
      attributes are unknown below this point, and the block nesting level
      when the walker has recorded one. */
  datatype Context = Context(unknownRequired: bool, nesting: Option<nat>)

  /** Whether the flag is set. The flag's key is private to this validator
      and only `WithUnknownRequiredAttributes` stores under it, always the
      value true, so a single boolean carries what the lookup can observe.
      The flag is set exactly when deriving a flagged context changes nothing. */
  function HasUnknownRequiredAttributes(ctx: Context): (r: bool)
    ensures r <==> ctx.(unknownRequired := true) == ctx
  {
    ctx.unknownRequired
  }

  /** A derived context with the flag set; everything else is inherited. */
  function WithUnknownRequiredAttributes(ctx: Context): (r: Context)
    ensures HasUnknownRequiredAttributes(r)
    ensures r.nesting == ctx.nesting
  {
    ctx.(unknownRequired := true)
  }

  /** Setting the flag twice is setting it once, and a flagged context is
      already its own derivation. */
  lemma WithUnknownRequiredAttributesIdempotent(ctx: Context)
    ensures WithUnknownRequiredAttributes(WithUnknownRequiredAttributes(ctx)) == WithUnknownRequiredAttributes(ctx)
    ensures HasUnknownRequiredAttributes(ctx) ==> WithUnknownRequiredAttributes(ctx) == ctx
  {
  }

  // ---------------------------------------------------------------------
  // Schemas and syntax nodes
  // ---------------------------------------------------------------------

  datatype AttributeSchema = AttributeSchema(isRequired: bool)

  /** The schema the resolver supplies for a node. A body's schema is a
      `BodySchema`, whose attribute map may be nil; `OtherSchema` stands for
      the schema kinds of other nodes. */
  datatype Schema =
    | BodySchema(attributes: Option<map<string, AttributeSchema>>)
    | OtherSchema

  /** An attribute's value expression: written in the file, or the null
      literal the validator synthesises. */
  datatype Expression = NullLiteral | Written(text: string)

  datatype Attribute = Attribute(name: string, expr: Expression)

  /** The syntax nodes the validator tells apart; `OtherNode` is every other
      kind (expressions, traversals, ...), which it ignores. */
  datatype Node =
    | Block(blockType: string)
    | Body(attributes: map<string, Attribute>, srcRange: Range)
    | AttributeNode(attribute: Attribute)
    | OtherNode

  /** The placeholder inserted for a missing attribute. */
  function Placeholder(name: string): Attribute
  {
    Attribute(name, NullLiteral)
  }

  /** The names the schema requires that the body does not have. */
  function MissingRequired(schemaAttrs: map<string, AttributeSchema>, attrs: map<string, Attribute>): set<string>
  {
    set n | n in schemaAttrs && schemaAttrs[n].isRequired && n !in attrs
  }

  /** The names a visit must diagnose, for any schema the resolver supplies:
      none without a schema or without an attribute map. */
  function MissingRequiredNames(schema: Option<Schema>, attrs: map<string, Attribute>): set<string>
  {
    match schema
    case Some(BodySchema(Some(schemaAttrs))) => MissingRequired(schemaAttrs, attrs)
    case _ => {}
  }

  // ---------------------------------------------------------------------
  // The fix and the diagnostic
  // ---------------------------------------------------------------------

  /** Go's `%q` verb; escaping of quotes and control characters inside the
      name is not modelled. */
  function Quote(s: string): string
  {
    "\"" + s + "\""
  }

  /** The text the formatter renders for `name = null`. */
  function RenderNullAttribute(name: string): string
  {
    name + " = null\n"
  }

  /** The fix for one missing attribute: a single insertion, at column 1 of
      the line on which the diagnostic's subject ends, of `name = null`. The
      subject must be present; the source dereferences it. */
  function BuildMissingRequiredAttributeCodeAction(diag: Diagnostic, name: string): (r: CodeAction)
    requires diag.subject.Some?
    ensures r.message == AddMissingAttributeTitle && r.kind == QuickfixAddMissingAttributes
    ensures |r.edits| == 1
    ensures IsInsertion(r.edits[0])
    ensures r.edits[0].range.start == Pos(diag.subject.value.end.line, 1)
    ensures r.edits[0].range.filename == diag.subject.value.filename
    ensures |name| <= |r.edits[0].newText| && r.edits[0].newText[..|name|] == name
  {
    var subject := diag.subject.value;
    var at := Pos(subject.end.line, 1);
    CodeAction(AddMissingAttributeTitle, QuickfixAddMissingAttributes,
               [TextEdit(Range(subject.filename, at, at), RenderNullAttribute(name))])
  }

  /** The diagnostic for one missing attribute of a body spanning `subject`:
      an Error located at the body, carrying exactly one fix. */
  function MissingAttributeDiagnostic(name: string, subject: Range): (r: Diagnostic)
    ensures r.severity == DiagError
    ensures r.subject == Some(subject)
    ensures |r.codeActions| == 1
    ensures r.codeActions[0] == BuildMissingRequiredAttributeCodeAction(r.(codeActions := []), name)
  {
    var diag := Diagnostic(DiagError,
                           "Required attribute " + Quote(name) + " not specified",
                           "An attribute named " + Quote(name) + " is required here",
                           Some(subject), []);
    diag.(codeActions := [BuildMissingRequiredAttributeCodeAction(diag, name)])
  }

  /** Different attributes get different diagnostics: the name can be read
      back from the fix's inserted text. */
  lemma MissingAttributeDiagnosticInjective(a: string, b: string, subject: Range)
    requires MissingAttributeDiagnostic(a, subject) == MissingAttributeDiagnostic(b, subject)
    ensures a == b
  {
    var text := RenderNullAttribute(a);
    assert text == MissingAttributeDiagnostic(a, subject).codeActions[0].edits[0].newText;
    assert text == RenderNullAttribute(b);
    assert |a| == |b|;
    assert a == text[..|a|];
    assert b == text[..|b|];
  }

  // ---------------------------------------------------------------------
  // The visit
  // ---------------------------------------------------------------------

  /** The required names among `order` that the body does not have. */
  function MissingAmong(order: seq<string>, schemaAttrs: map<string, AttributeSchema>, attrs: map<string, Attribute>): set<string>
  {
    set n | n in order && n in schemaAttrs && schemaAttrs[n].isRequired && n !in attrs
  }

  /** How `MissingAmong` changes when the loop moves past `order[0]`: a name
      that gets diagnosed leaves the set, since its placeholder is now present. */
  lemma MissingAmongStep(order: seq<string>, schemaAttrs: map<string, AttributeSchema>, attrs: map<string, Attribute>)
    requires |order| > 0 && order[0] in schemaAttrs
    ensures var name := order[0];
      if schemaAttrs[name].isRequired && name !in attrs then
        && name !in MissingAmong(order[1..], schemaAttrs, attrs[name := Placeholder(name)])
        && MissingAmong(order, schemaAttrs, attrs)
           == MissingAmong(order[1..], schemaAttrs, attrs[name := Placeholder(name)]) + {name}
      else
        MissingAmong(order, schemaAttrs, attrs) == MissingAmong(order[1..], schemaAttrs, attrs)
  {
    var name := order[0];
    forall n
      ensures n in order <==> n == name || n in order[1..]
    {
      if n in order {
        var i :| 0 <= i < |order| && order[i] == n;
        if i > 0 {
          assert order[1..][i - 1] == n;
        }
      }
    }
  }

  /** The loop over the schema's attributes, visited in `order`: each
      required attribute the (growing) body lacks is recorded and gets a
      placeholder. Returns the healed attribute map and the names diagnosed,
      in the order the loop reaches them. */
  function CheckRequired(order: seq<string>, schemaAttrs: map<string, AttributeSchema>,
                         attrs: map<string, Attribute>)
    : (r: (map<string, Attribute>, seq<string>))
    requires forall i :: 0 <= i < |order| ==> order[i] in schemaAttrs
    decreases |order|
    ensures r.0.Keys == attrs.Keys + MissingAmong(order, schemaAttrs, attrs)
    ensures forall n :: n in attrs ==> r.0[n] == attrs[n]
    ensures forall n :: n in r.0 && n !in attrs ==> r.0[n] == Placeholder(n)
  {
    if |order| == 0 then (attrs, [])
    else
      var name := order[0];
      MissingAmongStep(order, schemaAttrs, attrs);
      if schemaAttrs[name].isRequired && name !in attrs then
        var rest := CheckRequired(order[1..], schemaAttrs, attrs[name := Placeholder(name)]);
        (rest.0, [name] + rest.1)
      else
        CheckRequired(order[1..], schemaAttrs, attrs)
  }

  /** The names the loop reports are exactly the missing required ones among
      those it visits, each once. */
  lemma {:induction false} CheckRequiredReportsMissing(order: seq<string>, schemaAttrs: map<string, AttributeSchema>,
                                                      attrs: map<string, Attribute>)
    requires forall i :: 0 <= i < |order| ==> order[i] in schemaAttrs
    ensures var names := CheckRequired(order, schemaAttrs, attrs).1;
      && |names| == |MissingAmong(order, schemaAttrs, attrs)|
      && forall n :: n in names <==> n in MissingAmong(order, schemaAttrs, attrs)
  {
    if |order| > 0 {
      var name := order[0];
      MissingAmongStep(order, schemaAttrs, attrs);
      if schemaAttrs[name].isRequired && name !in attrs {
        CheckRequiredReportsMissing(order[1..], schemaAttrs, attrs[name := Placeholder(name)]);
      } else {
        CheckRequiredReportsMissing(order[1..], schemaAttrs, attrs);
      }
    }
  }

  /** The diagnostics for the names `CheckRequired` reports, in its order. */
  function MissingAttributeDiagnostics(names: seq<string>, subject: Range): (r: seq<Diagnostic>)
    ensures |r| == |names|
    ensures forall i :: 0 <= i < |names| ==> r[i] == MissingAttributeDiagnostic(names[i], subject)
  {
    seq(|names|, i requires 0 <= i < |names| => MissingAttributeDiagnostic(names[i], subject))
  }

  /** `order` is how Go's map iteration happens to enumerate `keys`. Go visits
      each key exactly once; the model needs only that each is visited. */
  predicate Enumerates(order: seq<string>, keys: set<string>)
  {
    && (forall k :: k in keys ==> k in order)
    && (forall i :: 0 <= i < |order| ==> order[i] in keys)
  }

  /** Each name gets its diagnostic, and every diagnostic belongs to a name. */
  lemma MissingAttributeDiagnosticsCover(names: seq<string>, subject: Range)
    ensures forall n :: n in names ==> MissingAttributeDiagnostic(n, subject) in MissingAttributeDiagnostics(names, subject)
    ensures forall i :: 0 <= i < |names| ==>
      names[i] in names && MissingAttributeDiagnostics(names, subject)[i] == MissingAttributeDiagnostic(names[i], subject)
  {
    var diags := MissingAttributeDiagnostics(names, subject);
    forall n | n in names ensures MissingAttributeDiagnostic(n, subject) in diags {
      var i :| 0 <= i < |names| && names[i] == n;
      assert diags[i] == MissingAttributeDiagnostic(n, subject);
    }
  }

  /** Visiting every key of the schema finds every missing required name. */
  lemma EnumeratedMissing(order: seq<string>, schemaAttrs: map<string, AttributeSchema>, attrs: map<string, Attribute>)
    requires Enumerates(order, schemaAttrs.Keys)
    ensures MissingAmong(order, schemaAttrs, attrs) == MissingRequired(schemaAttrs, attrs)
  {
  }

  /** What the source assumes of a body's schema: it is a body schema
      (anything else panics), and `order` enumerates its attribute map. */
  predicate ValidBodySchema(schema: Option<Schema>, order: seq<string>)
  {
    schema.Some? ==>
      && schema.value.BodySchema?
      && (schema.value.attributes.Some? ==> Enumerates(order, schema.value.attributes.value.Keys))
  }

  /** The body case of a visit: the healed attribute map and the diagnostics.
      Exactly the required attributes the body lacks are diagnosed, once
      each, and get a null placeholder; the attributes already there are
      left as they were. No diagnostics is a nil slice. */
  function VisitBody(attrs: map<string, Attribute>, srcRange: Range, schema: Option<Schema>, order: seq<string>)
    : (r: (map<string, Attribute>, Slice<Diagnostic>))
    requires ValidBodySchema(schema, order)
    ensures r.0.Keys == attrs.Keys + MissingRequiredNames(schema, attrs)
    ensures forall n :: n in attrs ==> r.0[n] == attrs[n]
    ensures forall n :: n in MissingRequiredNames(schema, attrs) ==> r.0[n] == Placeholder(n)
    ensures |r.1.Elems()| == |MissingRequiredNames(schema, attrs)|
    ensures r.1.Nil? <==> MissingRequiredNames(schema, attrs) == {}
    ensures forall n :: n in MissingRequiredNames(schema, attrs) ==>
      MissingAttributeDiagnostic(n, srcRange) in r.1.Elems()
    ensures forall i :: 0 <= i < |r.1.Elems()| ==>
      exists n :: n in MissingRequiredNames(schema, attrs) && r.1.Elems()[i] == MissingAttributeDiagnostic(n, srcRange)
  {
    if schema.None? || schema.value.attributes.None? then
      assert MissingRequiredNames(schema, attrs) == {};
      (attrs, Nil)
    else
      var schemaAttrs := schema.value.attributes.value;
      var checked := CheckRequired(order, schemaAttrs, attrs);
      var names := checked.1;
      var diags := MissingAttributeDiagnostics(names, srcRange);
      CheckRequiredReportsMissing(order, schemaAttrs, attrs);
      EnumeratedMissing(order, schemaAttrs, attrs);
      assert MissingRequiredNames(schema, attrs) == MissingAmong(order, schemaAttrs, attrs);
      MissingAttributeDiagnosticsCover(names, srcRange);
      (checked.0, AppendToNil(diags))
  }

  /** What the source assumes of a visit that reaches the body check. */
  predicate ValidVisit(ctx: Context, node: Node, schema: Option<Schema>, order: seq<string>)
  {
    !HasUnknownRequiredAttributes(ctx) && node.Body? ==> ValidBodySchema(schema, order)
  }

  /** A top-level provider block, where the flag gets set. */
  predicate IsTopLevelProvider(ctx: Context, node: Node)
  {
    node.Block? && node.blockType == ProviderBlockType && ctx.nesting == Some(0)
  }

  datatype VisitResult = VisitResult(ctx: Context, node: Node, diags: Slice<Diagnostic>)

  /** One visit. The body returned replaces the one passed in (the source
      mutates it in place). */
  function Visit(ctx: Context, node: Node, schema: Option<Schema>, order: seq<string>): (r: VisitResult)
    requires ValidVisit(ctx, node, schema, order)
    // a flagged context switches everything off
    ensures HasUnknownRequiredAttributes(ctx) ==> r == VisitResult(ctx, node, Nil)
    // the flag is raised exactly at a top-level provider, and never lowered
    ensures HasUnknownRequiredAttributes(r.ctx) <==>
      HasUnknownRequiredAttributes(ctx) || IsTopLevelProvider(ctx, node)
    ensures r.ctx.nesting == ctx.nesting
    ensures !IsTopLevelProvider(ctx, node) ==> r.ctx == ctx
    // only bodies are diagnosed or changed
    ensures !node.Body? ==> r.node == node && r.diags == Nil
    ensures node.Body? && !HasUnknownRequiredAttributes(ctx) ==>
      var body := VisitBody(node.attributes, node.srcRange, schema, order);
      r.node == Body(body.0, node.srcRange) && r.diags == body.1
  {
    if HasUnknownRequiredAttributes(ctx) then VisitResult(ctx, node, Nil)
    else
      match node
      case Block(blockType) =>
        var ctx' := if blockType == ProviderBlockType && ctx.nesting == Some(0)
                    then WithUnknownRequiredAttributes(ctx) else ctx;
        VisitResult(ctx', node, Nil)
      case Body(attrs, srcRange) =>
        var body := VisitBody(attrs, srcRange, schema, order);
        VisitResult(ctx, Body(body.0, srcRange), body.1)
      case _ => VisitResult(ctx, node, Nil)
  }

  // ---------------------------------------------------------------------
  // Properties across visits
  // ---------------------------------------------------------------------

  /** A diagnostic names an attribute exactly when that attribute is required
      and missing: optional and present attributes are never diagnosed. */
  lemma VisitBodyDiagnosesExactlyMissing(attrs: map<string, Attribute>, srcRange: Range, schema: Option<Schema>,
                                         order: seq<string>, name: string)
    requires ValidBodySchema(schema, order)
    ensures MissingAttributeDiagnostic(name, srcRange) in VisitBody(attrs, srcRange, schema, order).1.Elems()
        <==> name in MissingRequiredNames(schema, attrs)
  {
    var diags := VisitBody(attrs, srcRange, schema, order).1.Elems();
    if MissingAttributeDiagnostic(name, srcRange) in diags {
      var i :| 0 <= i < |diags| && diags[i] == MissingAttributeDiagnostic(name, srcRange);
      var m :| m in MissingRequiredNames(schema, attrs) && diags[i] == MissingAttributeDiagnostic(m, srcRange);
      MissingAttributeDiagnosticInjective(name, m, srcRange);
    }
  }

  /** Every diagnostic of a visit is an Error located at the body, with one
      fix inserting at column 1 of the body's last line. */
  lemma VisitBodyDiagnosticShape(attrs: map<string, Attribute>, srcRange: Range, schema: Option<Schema>,
                                 order: seq<string>)
    requires ValidBodySchema(schema, order)
    ensures forall d :: d in VisitBody(attrs, srcRange, schema, order).1.Elems() ==>
      && d.severity == DiagError
      && d.subject == Some(srcRange)
      && |d.codeActions| == 1
      && d.codeActions[0].message == AddMissingAttributeTitle
      && |d.codeActions[0].edits| == 1
      && IsInsertion(d.codeActions[0].edits[0])
      && d.codeActions[0].edits[0].range.start == Pos(srcRange.end.line, 1)
  {
    var diags := VisitBody(attrs, srcRange, schema, order).1.Elems();
    forall d | d in diags
      ensures d.severity == DiagError && d.subject == Some(srcRange) && |d.codeActions| == 1
      ensures d.codeActions[0].message == AddMissingAttributeTitle && |d.codeActions[0].edits| == 1
      ensures IsInsertion(d.codeActions[0].edits[0]) && d.codeActions[0].edits[0].range.start == Pos(srcRange.end.line, 1)
    {
      var i :| 0 <= i < |diags| && diags[i] == d;
      var m :| m in MissingRequiredNames(schema, attrs) && d == MissingAttributeDiagnostic(m, srcRange);
    }
  }

  /** Self-heal: visiting the healed body again, in any iteration order,
      finds nothing and changes nothing. */
  lemma VisitBodyIdempotent(attrs: map<string, Attribute>, srcRange: Range, schema: Option<Schema>,
                            order: seq<string>, order': seq<string>)
    requires ValidBodySchema(schema, order) && ValidBodySchema(schema, order')
    ensures var healed := VisitBody(attrs, srcRange, schema, order).0;
      VisitBody(healed, srcRange, schema, order') == (healed, Nil)
  {
    var healed := VisitBody(attrs, srcRange, schema, order).0;
    NothingMissingAfterHeal(schema, attrs, healed);
    var again := VisitBody(healed, srcRange, schema, order');
    assert again.1.Nil?;
    MapsAgree(again.0, healed);
  }

  /** A body holding every name the schema found missing lacks nothing more. */
  lemma NothingMissingAfterHeal(schema: Option<Schema>, attrs: map<string, Attribute>, healed: map<string, Attribute>)
    requires healed.Keys == attrs.Keys + MissingRequiredNames(schema, attrs)
    ensures MissingRequiredNames(schema, healed) == {}
  {
  }

  /** Maps with the same keys that agree on every key are equal. */
  lemma MapsAgree(m: map<string, Attribute>, m': map<string, Attribute>)
    requires m.Keys == m'.Keys
    requires forall n :: n in m' ==> m[n] == m'[n]
    ensures m == m'
  {
  }

  /** The same at the level of a visit: once a body has been visited, a
      second visit with the same context and schema reports nothing. */
  lemma VisitIdempotent(ctx: Context, node: Node, schema: Option<Schema>, order: seq<string>, order': seq<string>)
    requires ValidVisit(ctx, node, schema, order) && ValidVisit(ctx, node, schema, order')
    ensures var r := Visit(ctx, node, schema, order);
      Visit(r.ctx, r.node, schema, order') == VisitResult(r.ctx, r.node, Nil)
  {
    var r := Visit(ctx, node, schema, order);
    if node.Body? && !HasUnknownRequiredAttributes(ctx) {
      VisitBodyIdempotent(node.attributes, node.srcRange, schema, order, order');
    }
  }

  /** The schema of the worked example below: a, b and c required, d optional. */
  function ExampleSchema(a: string, b: string, c: string, d: string): map<string, AttributeSchema>
  {
    map[a := AttributeSchema(true), b := AttributeSchema(true), c := AttributeSchema(true), d := AttributeSchema(false)]
  }

  lemma ExampleMissing(a: string, b: string, c: string, d: string, attr: Attribute)
    requires |{a, b, c, d}| == 4
    ensures Enumerates([d, c, b, a], ExampleSchema(a, b, c, d).Keys)
    ensures MissingRequiredNames(Some(BodySchema(Some(ExampleSchema(a, b, c, d)))), map[b := attr]) == {a, c}
  {
    var schemaAttrs := ExampleSchema(a, b, c, d);
    assert schemaAttrs.Keys == {a, b, c, d};
    var missing := MissingRequiredNames(Some(BodySchema(Some(schemaAttrs))), map[b := attr]);
    assert a in missing && c in missing;
    forall n | n in missing ensures n == a || n == c {
      assert n in schemaAttrs.Keys;
    }
  }

  /** The worked example: with a, b and c required and d optional, a body
      holding only b gets two diagnostics, for a and c, and afterwards holds
      a, b and c, with b unchanged. */
  lemma CompletenessExample(a: string, b: string, c: string, d: string, attr: Attribute, srcRange: Range)
    requires |{a, b, c, d}| == 4
    ensures (var r := VisitBody(map[b := attr], srcRange, Some(BodySchema(Some(ExampleSchema(a, b, c, d)))), [d, c, b, a]);
             && r.0 == map[a := Placeholder(a), b := attr, c := Placeholder(c)]
             && |r.1.Elems()| == 2
             && MissingAttributeDiagnostic(a, srcRange) in r.1.Elems()
             && MissingAttributeDiagnostic(c, srcRange) in r.1.Elems())
  {
    ExampleMissing(a, b, c, d, attr);
    var schema := Some(BodySchema(Some(ExampleSchema(a, b, c, d))));
    var r := VisitBody(map[b := attr], srcRange, schema, [d, c, b, a]);
    HealedExampleBody(a, b, c, attr, r.0);
    assert |{a, c}| == 2;
  }

  lemma HealedExampleBody(a: string, b: string, c: string, attr: Attribute, healed: map<string, Attribute>)
    requires healed.Keys == map[b := attr].Keys + {a, c}
    requires forall n :: n in map[b := attr] ==> healed[n] == map[b := attr][n]
    requires forall n :: n in {a, c} ==> healed[n] == Placeholder(n)
    ensures healed == map[a := Placeholder(a), b := attr, c := Placeholder(c)]
  {
    MapsAgree(healed, map[a := Placeholder(a), b := attr, c := Placeholder(c)]);
  }

  // ---------------------------------------------------------------------
  // Suppression along a descent
  // ---------------------------------------------------------------------

  /** One node on a root-to-leaf descent, with what the walker supplies for
      it: the nesting level it records in the context, the node's schema and
      the iteration order of that schema's attributes. */
  datatype Step = Step(node: Node, nesting: Option<nat>, schema: Option<Schema>, order: seq<string>)

  predicate ValidStep(step: Step)
  {
    step.node.Body? ==> ValidBodySchema(step.schema, step.order)
  }

  /** Visits the nodes of a descent in pre-order, handing each the context
      its parent's visit returned; collects all diagnostics. */
  function Descend(ctx: Context, path: seq<Step>): (r: (Context, seq<Diagnostic>))
    requires forall i :: 0 <= i < |path| ==> ValidStep(path[i])
    ensures HasUnknownRequiredAttributes(ctx) ==> HasUnknownRequiredAttributes(r.0)
    decreases |path|
  {
    if |path| == 0 then (ctx, [])
    else
      var step := path[0];
      assert ValidStep(step);
      var v := Visit(ctx.(nesting := step.nesting), step.node, step.schema, step.order);
      var rest := Descend(v.ctx, path[1..]);
      (rest.0, v.diags.Elems() + rest.1)
  }

  /** Below a flagged context, nothing on the descent is diagnosed. */
  lemma {:induction false} FlaggedDescentIsSilent(ctx: Context, path: seq<Step>)
    requires forall i :: 0 <= i < |path| ==> ValidStep(path[i])
    requires HasUnknownRequiredAttributes(ctx)
    ensures Descend(ctx, path).1 == []
    decreases |path|
  {
    if |path| > 0 {
      var step := path[0];
      assert ValidStep(step);
      var v := Visit(ctx.(nesting := step.nesting), step.node, step.schema, step.order);
      FlaggedDescentIsSilent(v.ctx, path[1..]);
    }
  }

  /** A top-level provider block silences itself and everything below it. */
  lemma TopLevelProviderSilencesSubtree(ctx: Context, path: seq<Step>)
    requires forall i :: 0 <= i < |path| ==> ValidStep(path[i])
    requires |path| > 0 && path[0].node == Block(ProviderBlockType) && path[0].nesting == Some(0)
    ensures Descend(ctx, path).1 == []
  {
    var step := path[0];
    assert ValidStep(step);
    var v := Visit(ctx.(nesting := step.nesting), step.node, step.schema, step.order);
    FlaggedDescentIsSilent(v.ctx, path[1..]);
  }
}
