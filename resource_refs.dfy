/**
 * Step 4 of `fix_public_resource_ids`: rewrite references to dummy names in the attribute
 * values and element texts of the base APK's resource files.
 */
module ResourceRefs {
  import opened Text
  import opened Xml
  import opened ResourceTables

  /** What the checks of step 4 decide for one attribute value or text. */
  datatype Rewrite =
    | Keep                   // left as it is
    | Replace(value: string) // overwritten with `value`
    | MissingName            // the table lookup raises KeyError

  /** `val.startswith("@") and "/" in val and val.split("/")[1].startswith("APKTOOL_DUMMY_")` */
  predicate IsDummyRef(v: string) {
    StartsWith(v, "@") && '/' in v && |Split(v, '/')| >= 2 && StartsWith(Split(v, '/')[1], DummyPrefix)
  }

  /** The typed-reference check shared by attribute values and texts: `P/name` becomes `P/real`. */
  function RewriteRef(v: string, names: map<string, Option<string>>): Rewrite
    requires IsDummyRef(v)
  {
    var parts := Split(v, '/');
    if parts[1] !in names then MissingName
    else if names[parts[1]].Some? then Replace(parts[0] + "/" + names[parts[1]].value)
    else Keep
  }

  /** Both checks on an attribute value: the typed reference first, then a bare dummy name. */
  function RewriteAttrValue(v: string, names: map<string, Option<string>>): Rewrite {
    if IsDummyRef(v) && !RewriteRef(v, names).Keep? then RewriteRef(v, names)
    else if StartsWith(v, DummyPrefix) then
      if v !in names then MissingName
      else if names[v].Some? then Replace(names[v].value)
      else Keep
    else Keep
  }

  /** The one check on an element's text: only the typed reference. */
  function RewriteText(t: Option<string>, names: map<string, Option<string>>): Rewrite {
    if t.Some? && IsDummyRef(t.value) then RewriteRef(t.value, names) else Keep
  }

  function Apply(v: string, r: Rewrite): string {
    if r.Replace? then r.value else v
  }

  predicate AttrsMissing(attrib: map<string, string>, names: map<string, Option<string>>) {
    exists k :: k in attrib && RewriteAttrValue(attrib[k], names).MissingName?
  }

  predicate AttrsChanged(attrib: map<string, string>, names: map<string, Option<string>>) {
    exists k :: k in attrib && RewriteAttrValue(attrib[k], names).Replace?
  }

  function RewriteAttrs(attrib: map<string, string>, names: map<string, Option<string>>): map<string, string> {
    map k | k in attrib :: Apply(attrib[k], RewriteAttrValue(attrib[k], names))
  }

  /** Some attribute or the text of `n` names a dummy that is not in the table. */
  predicate NodeMissing(n: Node, names: map<string, Option<string>>) {
    AttrsMissing(n.attrib, names) || RewriteText(n.text, names).MissingName?
  }

  /** Some attribute or the text of `n` is overwritten (this sets `changed`). */
  predicate NodeChanged(n: Node, names: map<string, Option<string>>) {
    AttrsChanged(n.attrib, names) || RewriteText(n.text, names).Replace?
  }

  function RewriteNode(n: Node, names: map<string, Option<string>>): Node {
    var r := RewriteText(n.text, names);
    n.(attrib := RewriteAttrs(n.attrib, names), text := if r.Replace? then Some(r.value) else n.text)
  }

  predicate DocMissing(doc: Doc, names: map<string, Option<string>>) {
    exists i :: 0 <= i < |doc| && NodeMissing(doc[i], names)
  }

  predicate DocChanged(doc: Doc, names: map<string, Option<string>>) {
    exists i :: 0 <= i < |doc| && NodeChanged(doc[i], names)
  }

  function RewriteDoc(doc: Doc, names: map<string, Option<string>>): Doc {
    seq(|doc|, i requires 0 <= i < |doc| => RewriteNode(doc[i], names))
  }

  // ---------------------------------------------------------------------------
  // What the rewriting does to one value

  /** `P/APKTOOL_DUMMY_X` with a resolved dummy name becomes `P/` + its real name, as value or as text. */
  lemma RewriteTypedRef(p: string, d: string, names: map<string, Option<string>>)
    requires StartsWith(p, "@") && '/' !in p
    requires StartsWith(d, DummyPrefix) && '/' !in d
    requires d in names && names[d].Some?
    ensures RewriteAttrValue(p + "/" + d, names) == Replace(p + "/" + names[d].value)
    ensures RewriteText(Some(p + "/" + d), names) == Replace(p + "/" + names[d].value)
  {
    var v := p + "/" + d;
    SplitAfterPiece(p, '/', d);
    SplitWithoutSep(d, '/');
    assert v[..|p|] == p;
    assert v[..1] == p[..1];
    assert v[|p|] == '/';
  }

  /** Whatever follows a second `/` is dropped from a rewritten reference. */
  lemma RewriteDropsTail(p: string, d: string, tail: string, names: map<string, Option<string>>)
    requires StartsWith(p, "@") && '/' !in p
    requires StartsWith(d, DummyPrefix) && '/' !in d
    requires d in names && names[d].Some?
    ensures RewriteAttrValue(p + "/" + d + "/" + tail, names) == Replace(p + "/" + names[d].value)
    ensures RewriteText(Some(p + "/" + d + "/" + tail), names) == Replace(p + "/" + names[d].value)
  {
    var v := p + "/" + d + "/" + tail;
    assert v == p + ['/'] + (d + ['/'] + tail);
    SplitAfterPiece(p, '/', d + ['/'] + tail);
    SplitAfterPiece(d, '/', tail);
    assert v[..|p|] == p;
    assert v[..1] == p[..1];
    assert v[|p|] == '/';
  }

  /** A bare dummy name with a known real name is replaced in an attribute but not in a text. */
  lemma RewriteBareName(d: string, names: map<string, Option<string>>)
    requires StartsWith(d, DummyPrefix)
    requires d in names && names[d].Some?
    ensures RewriteAttrValue(d, names) == Replace(names[d].value)
    ensures RewriteText(Some(d), names) == Keep
  {
  }

  /** The lookup fails exactly for a dummy reference whose name is not in the table at all. */
  lemma RewriteMissing(v: string, names: map<string, Option<string>>)
    ensures RewriteAttrValue(v, names).MissingName? <==>
      (IsDummyRef(v) && Split(v, '/')[1] !in names) || (StartsWith(v, DummyPrefix) && v !in names)
  {
  }

  /** A value that is neither a dummy reference nor a dummy name, or whose name is unresolved, is kept. */
  lemma RewriteKeeps(v: string, names: map<string, Option<string>>)
    requires !IsDummyRef(v) || (Split(v, '/')[1] in names && names[Split(v, '/')[1]].None?)
    requires !StartsWith(v, DummyPrefix) || (v in names && names[v].None?)
    ensures RewriteAttrValue(v, names) == Keep
    ensures RewriteText(Some(v), names) == Keep
  {
  }

  // ---------------------------------------------------------------------------
  // The rewriting loops

  /** The attribute loop for one element: every attribute checked, in whatever order. */
  method RewriteAttributes(attrib: map<string, string>, names: map<string, Option<string>>)
    returns (ok: bool, rewritten: map<string, string>, changed: bool)
    ensures ok <==> !AttrsMissing(attrib, names)
    ensures ok ==> rewritten == RewriteAttrs(attrib, names) && changed == AttrsChanged(attrib, names)
  {
    rewritten, changed := attrib, false;
    var todo := attrib.Keys;
    while todo != {}
      invariant todo <= attrib.Keys && rewritten.Keys == attrib.Keys
      invariant forall k :: k in attrib && k !in todo ==>
        !RewriteAttrValue(attrib[k], names).MissingName? && rewritten[k] == Apply(attrib[k], RewriteAttrValue(attrib[k], names))
      invariant forall k :: k in todo ==> rewritten[k] == attrib[k]
      invariant changed <==> exists k :: k in attrib && k !in todo && RewriteAttrValue(attrib[k], names).Replace?
      decreases |todo|
    {
      var attr :| attr in todo;
      var r := RewriteAttrValue(attrib[attr], names);
      if r.MissingName? {
        return false, rewritten, changed;
      }
      if r.Replace? {
        rewritten := rewritten[attr := r.value];
        changed := true;
      }
      todo := todo - {attr};
    }
    ok := true;
  }

  /** The element loop for one file, rewriting the parsed tree in place. */
  method RewriteTree(tree: array<Node>, names: map<string, Option<string>>) returns (ok: bool, changed: bool)
    modifies tree
    ensures ok <==> !DocMissing(old(tree[..]), names)
    ensures ok ==> tree[..] == RewriteDoc(old(tree[..]), names) && changed == DocChanged(old(tree[..]), names)
  {
    changed := false;
    for i := 0 to tree.Length
      invariant forall j :: 0 <= j < i ==> !NodeMissing(old(tree[j]), names) && tree[j] == RewriteNode(old(tree[j]), names)
      invariant forall j :: i <= j < tree.Length ==> tree[j] == old(tree[j])
      invariant changed <==> exists j :: 0 <= j < i && NodeChanged(old(tree[j]), names)
    {
      var el := tree[i];
      var attrsOk, attrs, attrsChanged := RewriteAttributes(el.attrib, names);
      if !attrsOk {
        assert NodeMissing(old(tree[..])[i], names);
        return false, changed;
      }
      var text := el.text;
      var r := RewriteText(text, names);
      if r.MissingName? {
        assert NodeMissing(old(tree[..])[i], names);
        return false, changed;
      }
      if r.Replace? {
        text := Some(r.value);
      }
      tree[i] := el.(attrib := attrs, text := text);
      changed := changed || attrsChanged || r.Replace?;
    }
    ok := true;
    assert tree[..] == RewriteDoc(old(tree[..]), names);
    assert forall j :: 0 <= j < tree.Length ==> old(tree[..])[j] == old(tree[j]);
  }

  // ---------------------------------------------------------------------------
  // The directory walk

  /** What step 4 does to one file of the walk. */
  datatype FileStep = Untouched | Write(doc: Doc) | Abort(error: FixError)

  /** `f.lower().endswith(".xml")` */
  predicate IsXmlName(name: string) {
    EndsWith(Lower(name), ".xml")
  }

  /**
   * One file: only `.xml` names are looked at; a file that does not parse is skipped, and so is
   * every file while the manifest does not parse (its namespace scan sits in the same `try`); a
   * manifest without an `android` prefix and a dummy lookup that fails both raise KeyError,
   * which the `try` does not catch; a file is written back only if something changed.
   */
  function StepFile(f: ResFile, names: map<string, Option<string>>, manifest: Manifest): FileStep {
    if !IsXmlName(f.name) then Untouched
    else match f.content
      case Unparsable => Untouched
      case Parsed(doc) =>
        if manifest.content.Unparsable? then Untouched
        else if manifest.androidUri.None? then Abort(MissingAndroidNamespace)
        else if DocMissing(doc, names) then Abort(MissingDummyName(f.name))
        else if DocChanged(doc, names) then Write(RewriteDoc(doc, names))
        else Untouched
  }

  /** The file as it is on disk after its step, if that step does not abort. */
  function Applied(f: ResFile, names: map<string, Option<string>>, manifest: Manifest): ResFile {
    match StepFile(f, names, manifest)
    case Write(doc) => f.(content := Parsed(doc))
    case _ => f
  }

  /** The files after step 4, and the exception that stopped it, if any. */
  datatype Walked = Walked(files: seq<ResFile>, error: Option<FixError>)

  /** Step 4 over the files in walk order: files before an abort are written, the rest stay as they were. */
  function Walk(files: seq<ResFile>, names: map<string, Option<string>>, manifest: Manifest): Walked
    decreases |files|
  {
    if files == [] then Walked([], None)
    else match StepFile(files[0], names, manifest)
      case Abort(e) => Walked(files, Some(e))
      case _ =>
        var rest := Walk(files[1..], names, manifest);
        Walked([Applied(files[0], names, manifest)] + rest.files, rest.error)
  }

  /** The `try` block of step 4 for one file. */
  method RewriteFile(f: ResFile, names: map<string, Option<string>>, manifest: Manifest) returns (step: FileStep)
    ensures step == StepFile(f, names, manifest)
  {
    if !IsXmlName(f.name) || f.content.Unparsable? || manifest.content.Unparsable? {
      return Untouched;
    }
    if manifest.androidUri.None? {
      return Abort(MissingAndroidNamespace);
    }
    var doc := f.content.doc;
    var tree := new Node[|doc|](k requires 0 <= k < |doc| => doc[k]);
    assert tree[..] == doc;
    var ok, changed := RewriteTree(tree, names);
    if !ok {
      return Abort(MissingDummyName(f.name));
    }
    step := if changed then Write(tree[..]) else Untouched;
  }

  /** One unfolding of `Walk` at position `i`. */
  lemma WalkAt(files: seq<ResFile>, i: nat, names: map<string, Option<string>>, manifest: Manifest)
    requires i < |files|
    ensures Walk(files[i..], names, manifest) ==
      if StepFile(files[i], names, manifest).Abort? then Walked(files[i..], Some(StepFile(files[i], names, manifest).error))
      else Walked([Applied(files[i], names, manifest)] + Walk(files[i + 1..], names, manifest).files,
                  Walk(files[i + 1..], names, manifest).error)
  {
  }

  /** Step 4 as the script runs it: each file of the walk in turn, stopping at the first exception. */
  method RewriteReferences(files: seq<ResFile>, names: map<string, Option<string>>, manifest: Manifest)
    returns (written: seq<ResFile>, error: Option<FixError>)
    ensures Walked(written, error) == Walk(files, names, manifest)
  {
    var done: seq<ResFile> := [];
    var i := 0;
    assert files[0..] == files;
    while i < |files|
      invariant 0 <= i <= |files|
      invariant Walk(files, names, manifest) ==
        Walked(done + Walk(files[i..], names, manifest).files, Walk(files[i..], names, manifest).error)
    {
      var f := files[i];
      WalkAt(files, i, names, manifest);
      var step := RewriteFile(f, names, manifest);
      if step.Abort? {
        return done + files[i..], Some(step.error);
      }
      var next := if step.Write? then f.(content := Parsed(step.doc)) else f;
      assert next == Applied(f, names, manifest);
      assert (done + [next]) + Walk(files[i + 1..], names, manifest).files
          == done + ([next] + Walk(files[i + 1..], names, manifest).files);
      done := done + [next];
      i := i + 1;
    }
    assert files[i..] == [];
    assert done + [] == done;
    written, error := done, None;
  }

  // ---------------------------------------------------------------------------
  // Properties of the walk

  /** The walk keeps the directory listing: the same files, in the same order. */
  lemma {:induction false} WalkKeepsListing(files: seq<ResFile>, names: map<string, Option<string>>, manifest: Manifest)
    ensures |Walk(files, names, manifest).files| == |files|
    ensures forall i :: 0 <= i < |files| ==>
      Walk(files, names, manifest).files[i].dir == files[i].dir
      && Walk(files, names, manifest).files[i].name == files[i].name
    decreases |files|
  {
    if files != [] && !StepFile(files[0], names, manifest).Abort? {
      WalkKeepsListing(files[1..], names, manifest);
      var w := Walk(files, names, manifest);
      forall i | 0 < i < |files|
        ensures w.files[i] == Walk(files[1..], names, manifest).files[i - 1] && files[i] == files[1..][i - 1] { }
    }
  }

  /** The position of the first file whose step raises, if any. */
  function FirstAbort(files: seq<ResFile>, names: map<string, Option<string>>, manifest: Manifest): (k: Option<nat>)
    ensures k.Some? ==> k.value < |files| && StepFile(files[k.value], names, manifest).Abort?
    ensures forall i :: 0 <= i < |files| && (k.None? || i < k.value) ==> !StepFile(files[i], names, manifest).Abort?
    decreases |files|
  {
    if files == [] then None
    else if StepFile(files[0], names, manifest).Abort? then Some(0)
    else
      var rest := FirstAbort(files[1..], names, manifest);
      assert forall i :: 0 < i < |files| ==> files[i] == files[1..][i - 1];
      if rest.Some? then Some(rest.value + 1) else None
  }

  /** The files before position `k` are as their own step left them. */
  ghost predicate AppliedBefore(files: seq<ResFile>, out: seq<ResFile>, k: nat, names: map<string, Option<string>>, manifest: Manifest)
    requires k <= |files| == |out|
  {
    forall i :: 0 <= i < k ==> out[i] == Applied(files[i], names, manifest)
  }

  /** The files from position `k` on are untouched. */
  ghost predicate UntouchedFrom(files: seq<ResFile>, out: seq<ResFile>, k: nat)
    requires k <= |files| == |out|
  {
    forall i :: k <= i < |files| ==> out[i] == files[i]
  }

  /**
   * Without an exception every file gets its own step; after an exception at file `k` the
   * files before `k` got theirs and `k` and every later file are left as they were.
   */
  lemma {:induction false} WalkOutcome(files: seq<ResFile>, names: map<string, Option<string>>, manifest: Manifest)
    ensures |Walk(files, names, manifest).files| == |files|
    ensures Walk(files, names, manifest).error.None? <==> FirstAbort(files, names, manifest).None?
    ensures FirstAbort(files, names, manifest).None? ==>
      AppliedBefore(files, Walk(files, names, manifest).files, |files|, names, manifest)
    ensures FirstAbort(files, names, manifest).Some? ==>
      var k := FirstAbort(files, names, manifest).value;
      && StepFile(files[k], names, manifest) == Abort(Walk(files, names, manifest).error.value)
      && AppliedBefore(files, Walk(files, names, manifest).files, k, names, manifest)
      && UntouchedFrom(files, Walk(files, names, manifest).files, k)
    decreases |files|
  {
    if files != [] && !StepFile(files[0], names, manifest).Abort? {
      var tail := files[1..];
      WalkOutcome(tail, names, manifest);
      var w := Walk(files, names, manifest);
      var r := Walk(tail, names, manifest);
      assert w.files == [Applied(files[0], names, manifest)] + r.files;
      forall i | 0 < i < |files| ensures files[i] == tail[i - 1] && w.files[i] == r.files[i - 1] { }
    }
  }

  /**
   * A file's step changes it only when its name ends in `.xml` in any case, it parses, and some
   * attribute or text in it was overwritten; it is then the file's tree with every value rewritten.
   */
  lemma AppliedChanges(f: ResFile, names: map<string, Option<string>>, manifest: Manifest)
    ensures Applied(f, names, manifest) != f ==>
      && IsXmlName(f.name) && f.content.Parsed?
      && DocChanged(f.content.doc, names)
      && Applied(f, names, manifest) == f.(content := Parsed(RewriteDoc(f.content.doc, names)))
    ensures Applied(f, names, manifest).dir == f.dir && Applied(f, names, manifest).name == f.name
  {
  }

  /**
   * The name test of step 4 reads only the last four characters, each up to case: a name already
   * ending in `.xml` passes, and lower-casing a name first changes nothing.
   */
  lemma XmlNameByLastFour(s: string)
    ensures IsXmlName(s) <==> |s| >= 4 && forall k :: 0 <= k < 4 ==> LowerChar(s[|s| - 4 + k]) == ".xml"[k]
    ensures EndsWith(s, ".xml") ==> IsXmlName(s)
    ensures IsXmlName(Lower(s)) <==> IsXmlName(s)
  {
  }

  /** The file names step 4 looks at, whatever their case: an illustration of `XmlNameByLastFour`. */
  lemma XmlNameIgnoresCase()
    ensures IsXmlName("strings.xml") && IsXmlName("LAYOUT.XML") && !IsXmlName("public.xml.bak")
  {
    assert Lower("strings.xml")[7..] == ".xml";
    assert Lower("LAYOUT.XML")[6..] == ".xml";
    assert Lower("public.xml.bak")[10..] == ".bak";
  }
}
