/**
 * What `addProblem` does with one outdated dependency: whether a warning is created
 * on its `<version>` element, and which quick fix goes with it, the literal
 * "replace element version" or the "replace property version" that rewrites the
 * property's definition. The editor's PSI tree is reduced to the few facts that
 * decide this: the version element's raw text, its references, what a property
 * reference resolves to, and the node kinds the fix can write to.
 */
module ProblemPlanning {

  import opened Wrappers
  import opened Placeholders

  /** A position in the pom file, standing for a PSI element. */
  type Location = nat

  /** A PSI element, by the kinds the fix distinguishes: an `XmlTag` (with the trimmed
      text of its value), an `XmlText`, or anything else. */
  datatype PsiNode =
    | XmlTagNode(loc: Location, trimmedText: string)
    | XmlTextNode(loc: Location)
    | OtherNode(loc: Location)

  /** What `PsiReference.resolve()` gives when not null: a `MavenPsiElementWrapper`
      around the property's definition, or some other element. */
  datatype ResolvedElement = PropertyWrapper(wrappee: PsiNode) | PlainElement(node: PsiNode)

  /** A reference of an XML element: a `MavenPropertyPsiReference`, with what it
      resolves to, or a reference of another class. */
  datatype Reference = PropertyReference(resolvesTo: Option<ResolvedElement>) | OtherReference

  /** The `<version>` element of a dependency: its node, its raw text as written
      (`${lib.version}` stays unexpanded) and its references. */
  datatype VersionElement = VersionElement(node: PsiNode, rawText: string, references: seq<Reference>)

  /** `dependency.getVersion()`: the XML element, absent when the dependency has no
      `<version>`, and the string value Maven's DOM resolves it to. The raw text is
      read from the element, so it is null exactly when the element is. */
  datatype VersionValue = VersionValue(element: Option<VersionElement>, stringValue: Option<string>) {
    function RawText(): Option<string> {
      if element.Some? then Some(element.value.rawText) else None
    }
  }

  /** The two quick fixes; each writes `latest` when applied. */
  datatype Fix =
    | ReplaceElementVersion(latest: string)
    | ReplacePropertyVersion(definition: PsiNode, latest: string)

  /** Exceptions that end the inspection: `versions[0]` on an empty array, and the
      unchecked cast of a resolved property to `MavenPsiElementWrapper`. */
  datatype Failure = IndexOutOfBounds | ClassCast

  /** The outcome of `addProblem`: nothing, a warning at `at` with an optional fix, or
      an exception. */
  datatype Plan = NoProblem | Warn(at: PsiNode, fix: Option<Fix>) | Crash(failure: Failure)

  /** `refs[k]` is a property reference, and no reference before it is one. */
  predicate IsFirstPropertyReference(refs: seq<Reference>, k: int) {
    && 0 <= k < |refs|
    && refs[k].PropertyReference?
    && forall j :: 0 <= j < k ==> !refs[j].PropertyReference?
  }

  /** Any first property reference is the one `findInstance` returns. */
  lemma FoundIsFirst(refs: seq<Reference>)
    ensures forall k :: IsFirstPropertyReference(refs, k) ==> FindPropertyReference(refs) == Some(refs[k])
  {
    forall k | IsFirstPropertyReference(refs, k)
      ensures FindPropertyReference(refs) == Some(refs[k])
    {
      assert HasPropertyReference(refs);
      var found := FindPropertyReference(refs);
      var m :| IsFirstPropertyReference(refs, m) && refs[m] == found.value;
      assert 0 <= m < |refs| && refs[m].PropertyReference?;
      assert 0 <= k < |refs| && refs[k].PropertyReference?;
      assert m == k;
    }
  }

  /** `findInstance(references, MavenPropertyPsiReference.class)`: the first property
      reference, if there is one. */
  function FindPropertyReference(refs: seq<Reference>): (r: Option<Reference>)
    ensures r.None? <==> !HasPropertyReference(refs)
    ensures r.Some? ==> exists k :: IsFirstPropertyReference(refs, k) && refs[k] == r.value
  {
    if refs == [] then None
    else if refs[0].PropertyReference? then
      assert IsFirstPropertyReference(refs, 0);
      Some(refs[0])
    else
      var r := FindPropertyReference(refs[1..]);
      assert r.Some? ==> exists k :: IsFirstPropertyReference(refs, k) && refs[k] == r.value by {
        if r.Some? {
          var k :| IsFirstPropertyReference(refs[1..], k) && refs[1..][k] == r.value;
          forall j | 0 <= j < k + 1
            ensures !refs[j].PropertyReference?
          {
            if j > 0 { assert refs[j] == refs[1..][j - 1]; }
          }
          assert IsFirstPropertyReference(refs, k + 1);
        }
      }
      assert HasPropertyReference(refs[1..]) ==> HasPropertyReference(refs) by {
        if HasPropertyReference(refs[1..]) {
          var k :| 0 <= k < |refs[1..]| && refs[1..][k].PropertyReference?;
          assert refs[k + 1].PropertyReference?;
        }
      }
      assert HasPropertyReference(refs) ==> HasPropertyReference(refs[1..]) by {
        if HasPropertyReference(refs) {
          var k :| 0 <= k < |refs| && refs[k].PropertyReference?;
          assert refs[1..][k - 1].PropertyReference?;
        }
      }
      r
  }

  predicate HasPropertyReference(refs: seq<Reference>) {
    exists k :: 0 <= k < |refs| && refs[k].PropertyReference?
  }

  /** What the element's first property reference resolves to, if it has one and it resolves. */
  function ResolvedProperty(element: VersionElement): Option<ResolvedElement> {
    match FindPropertyReference(element.references)
    case Some(PropertyReference(target)) => target
    case _ => None
  }

  /** The trimmed text of the tag a reference defines the property by: the reference
      resolves to a `MavenPsiElementWrapper` whose wrappee is an `XmlTag`. */
  function DefiningTagText(ref: Reference): Option<string> {
    match ref
    case PropertyReference(Some(PropertyWrapper(XmlTagNode(_, text)))) => Some(text)
    case _ => None
  }

  /** `resolveXmlElement`: the trimmed text of the `XmlTag` that defines the property the
      element's first property reference refers to; null when there is no element, no
      property reference, or that reference does not lead to a wrapped tag. */
  function ResolveXmlElement(element: Option<VersionElement>): (r: Option<string>)
    ensures element.None? ==> r.None?
    ensures element.Some? && !HasPropertyReference(element.value.references) ==> r.None?
    ensures forall k :: element.Some? && IsFirstPropertyReference(element.value.references, k) ==>
      r == DefiningTagText(element.value.references[k])
  {
    if element.None? then None
    else
      var refs := element.value.references;
      var found := FindPropertyReference(refs);
      FoundIsFirst(refs);
      match ResolvedProperty(element.value)
      case Some(PropertyWrapper(XmlTagNode(_, text))) => Some(text)
      case _ => None
  }

  /** The empty test of `StringUtil.isEmpty`: null or the empty string. */
  predicate IsEmpty(s: Option<string>) {
    s.None? || s.value == ""
  }

  /** The value compared with the raw text to decide the property fix: the DOM's string
      value, unless it equals the raw text or still holds `${`, in which case the
      property's definition is looked up directly. */
  function ResolvedValue(value: VersionValue): (r: Option<string>)
    requires value.element.Some? && value.stringValue.Some?
    ensures var v, raw := value.stringValue.value, value.element.value.rawText;
      v != raw && !HasPropertyStart(v) ==> r == Some(v)
    ensures var v, raw := value.stringValue.value, value.element.value.rawText;
      r.Some? ==>
        || (r == Some(v) && v != raw && !HasPropertyStart(v))
        || exists k :: IsFirstPropertyReference(value.element.value.references, k)
                       && r == DefiningTagText(value.element.value.references[k])
    ensures var v, raw, refs := value.stringValue.value, value.element.value.rawText, value.element.value.references;
      v == raw || HasPropertyStart(v) ==>
        && (!HasPropertyReference(refs) ==> r.None?)
        && forall k :: IsFirstPropertyReference(refs, k) ==> r == DefiningTagText(refs[k])
  {
    var v := value.stringValue.value;
    if value.element.value.rawText == v || HasPropertyStart(v) then ResolveXmlElement(value.element)
    else value.stringValue
  }

  /**
   * `addProblem` for a dependency whose newest version `latest` is newer than its
   * current one. The `model == null` guard is not modelled: the caller has already
   * dereferenced the model.
   */
  function PlanProblem(value: VersionValue, maven35: bool, latest: string): (p: Plan)
    ensures p.Warn? ==> value.element.Some? && p.at == value.element.value.node
    ensures p.Warn? && p.fix.Some? ==> p.fix.value.latest == latest
  {
    match value.RawText()
    case None => NoProblem
    case Some(raw) =>
      if !DefinedAsProperty(raw, maven35) then
        Warn(value.element.value.node, Some(ReplaceElementVersion(latest)))
      else if value.stringValue.None? then NoProblem
      else
        var resolvedValue := ResolvedValue(value);
        match ResolvedProperty(value.element.value)
        case None => NoProblem
        case Some(PlainElement(_)) => Crash(ClassCast)
        case Some(PropertyWrapper(definition)) =>
          if resolvedValue != Some(raw) && !IsEmpty(resolvedValue) then
            Warn(value.element.value.node, Some(ReplacePropertyVersion(definition, latest)))
          else
            Warn(value.element.value.node, None)
  }

  /** A raw text without `${` always gets the literal fix, whatever the Maven version;
      a raw text that is defined as a property never does. */
  lemma LiteralFixIffNotProperty(value: VersionValue, maven35: bool, latest: string)
    requires value.element.Some?
    ensures PlanProblem(value, maven35, latest) == Warn(value.element.value.node, Some(ReplaceElementVersion(latest)))
            <==> !DefinedAsProperty(value.element.value.rawText, maven35)
    ensures !HasPropertyStart(value.element.value.rawText)
            ==> PlanProblem(value, maven35, latest) == Warn(value.element.value.node, Some(ReplaceElementVersion(latest)))
  {
  }

  /** Below Maven 3.5 the text checked for `${` is the raw text itself. */
  lemma BelowMaven35ChecksRawText(raw: string)
    ensures TextToCheck(raw, false) == raw
    ensures DefinedAsProperty(raw, false) <==> HasPropertyStart(raw)
  {
  }

  /** In the property branch no warning at all is created when the version has no raw
      text, the DOM has no string value, the element has no property reference, or the
      reference resolves to null. */
  lemma PropertyBranchSilentCases(value: VersionValue, maven35: bool, latest: string)
    requires value.RawText().None? || DefinedAsProperty(value.RawText().value, maven35)
    requires || value.RawText().None?
             || value.stringValue.None?
             || !HasPropertyReference(value.element.value.references)
             || ResolvedProperty(value.element.value).None?
    ensures PlanProblem(value, maven35, latest) == NoProblem
  {
  }

  /** In the property branch, once the reference resolves to a property definition,
      the warning is created; it carries the property fix, aimed at that definition,
      exactly when the resolved value is non-empty and differs from the raw text, and
      no fix otherwise. */
  lemma PropertyFixIff(value: VersionValue, maven35: bool, latest: string, definition: PsiNode)
    requires value.element.Some? && value.stringValue.Some?
    requires DefinedAsProperty(value.element.value.rawText, maven35)
    requires ResolvedProperty(value.element.value) == Some(PropertyWrapper(definition))
    ensures var p := PlanProblem(value, maven35, latest);
      && p.Warn?
      && p.at == value.element.value.node
      && (p.fix.Some? <==> !IsEmpty(ResolvedValue(value)) && ResolvedValue(value) != Some(value.element.value.rawText))
      && (p.fix.Some? ==> p.fix.value == ReplacePropertyVersion(definition, latest))
  {
  }

  /** The unchecked cast of line 188: a property reference that resolves to an element
      other than a `MavenPsiElementWrapper` ends in a `ClassCastException`. */
  lemma UnwrappedResolutionFails(value: VersionValue, maven35: bool, latest: string, node: PsiNode)
    requires value.element.Some? && value.stringValue.Some?
    requires DefinedAsProperty(value.element.value.rawText, maven35)
    requires ResolvedProperty(value.element.value) == Some(PlainElement(node))
    ensures PlanProblem(value, maven35, latest) == Crash(ClassCast)
  {
  }

  /** The text of the pom file, by location. */
  type Document = map<Location, string>

  /** `applyFix` writes to an `XmlTag` (its value's text) or an `XmlText`, and to nothing else. */
  predicate Writable(n: PsiNode) {
    n.XmlTagNode? || n.XmlTextNode?
  }

  /** The element a fix writes to: the problem's own element for the literal fix
      (`descriptor.getPsiElement()`), the property's definition for the property fix. */
  function FixTarget(fix: Fix, at: PsiNode): PsiNode {
    match fix
    case ReplaceElementVersion(_) => at
    case ReplacePropertyVersion(definition, _) => definition
  }

  /** `applyFix`: sets the target's text to exactly `latest` if it is a tag or a text
      node, and changes nothing else. */
  function ApplyFix(fix: Fix, at: PsiNode, doc: Document): (r: Document)
    ensures var target := FixTarget(fix, at);
      && (forall l :: l in doc && l != target.loc ==> l in r && r[l] == doc[l])
      && (forall l :: l in r && l != target.loc ==> l in doc)
      && (Writable(target) ==> target.loc in r && r[target.loc] == fix.latest)
      && (!Writable(target) ==> r == doc)
  {
    var target := FixTarget(fix, at);
    if Writable(target) then doc[target.loc := fix.latest] else doc
  }

  /** The fix of a planned warning writes exactly `latest`: the literal fix into the
      dependency's own `<version>` element, the property fix into the element that the
      version's first property reference resolves to. */
  lemma PlannedFixTargets(value: VersionValue, maven35: bool, latest: string, doc: Document)
    requires PlanProblem(value, maven35, latest).Warn?
    requires PlanProblem(value, maven35, latest).fix.Some?
    ensures var p := PlanProblem(value, maven35, latest);
      && var target := FixTarget(p.fix.value, p.at);
      && (p.fix.value.ReplaceElementVersion? ==> target == value.element.value.node)
      && (p.fix.value.ReplacePropertyVersion? ==>
            ResolvedProperty(value.element.value) == Some(PropertyWrapper(target)))
      && (Writable(target) ==> ApplyFix(p.fix.value, p.at, doc) == doc[target.loc := latest])
  {
  }
}
