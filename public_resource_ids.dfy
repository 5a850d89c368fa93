/**
 * `fix_public_resource_ids` as a whole: the decoded base APK's `res` directory goes in, the
 * files as they are on disk afterwards come out, with what the function ended with.
 */
module PublicResourceIds {
  import opened Xml
  import opened ResourceTables
  import opened ResourceRename
  import opened ResourceRefs

  /** How the function ends: one of its two early returns, a normal end, or an exception. */
  datatype FixOutcome =
    | NoPublicXml           // the base APK has no res/values/public.xml
    | NoDummyNames          // step 1 found no dummy entries
    | Fixed(updated: nat)   // all four steps ran; `updated` is the count logged by step 3
    | Failed(error: FixError)

  datatype FixResult = FixResult(files: seq<ResFile>, outcome: FixOutcome)

  predicate IsPublicXml(f: ResFile) {
    f.dir == "values" && f.name == "public.xml"
  }

  /** Where `res/values/public.xml` sits in the walk of `res`, if it exists. */
  function PublicXmlIndex(res: seq<ResFile>): (p: Option<nat>)
    ensures p.Some? ==> p.value < |res| && IsPublicXml(res[p.value])
    ensures forall j :: 0 <= j < |res| && (p.None? || j < p.value) ==> !IsPublicXml(res[j])
    decreases |res|
  {
    if res == [] then None
    else if IsPublicXml(res[0]) then Some(0)
    else
      var rest := PublicXmlIndex(res[1..]);
      assert forall j :: 0 < j < |res| ==> res[j] == res[1..][j - 1];
      if rest.Some? then Some(rest.value + 1) else None
  }

  /**
   * The whole function, step by step: step 1 on the base public.xml, step 2 over the splits'
   * public.xml files, step 3 written back to the base public.xml, then step 4 over every file
   * of `res`, the freshly written public.xml included.
   */
  function Fix(res: seq<ResFile>, splits: seq<Option<Content>>, manifest: Manifest): FixResult {
    match PublicXmlIndex(res)
    case None => FixResult(res, NoPublicXml)
    case Some(p) =>
      match res[p].content
      case Unparsable => FixResult(res, Failed(BaseParseError))
      case Parsed(base) =>
        var t := Collect(base);
        if t.idToDummyName == map[] then FixResult(res, NoDummyNames)
        else match ResolveAll(t, splits)
          case Err(e) => FixResult(res, Failed(e))
          case Ok(t') =>
            var names := t'.dummyNameToRealName;
            var renamed := res[p := res[p].(content := Parsed(RenameDoc(base, names)))];
            var w := Walk(renamed, names, manifest);
            FixResult(w.files, if w.error.Some? then Failed(w.error.value) else Fixed(CountRenames(base, names)))
  }

  /** The function as the script runs it. */
  method FixPublicResourceIds(res: seq<ResFile>, splits: seq<Option<Content>>, manifest: Manifest)
    returns (files: seq<ResFile>, outcome: FixOutcome)
    ensures FixResult(files, outcome) == Fix(res, splits, manifest)
  {
    var p := PublicXmlIndex(res);
    if p.None? {
      return res, NoPublicXml;
    }
    var publicXml := res[p.value];
    if publicXml.content.Unparsable? {
      return res, Failed(BaseParseError);
    }
    var base := publicXml.content.doc;

    // Step 1
    var idToDummyName, dummyNameToRealName := CollectDummyNames(base);
    if idToDummyName == map[] {
      return res, NoDummyNames;
    }

    // Step 2
    ghost var t0 := Tables(idToDummyName, dummyNameToRealName);
    for k := 0 to |splits|
      invariant ResolveAll(t0, splits[..k]) == Ok(Tables(idToDummyName, dummyNameToRealName))
    {
      assert splits[..k + 1][..k] == splits[..k];
      match splits[k]
      case None =>
      case Some(Unparsable) =>
        ResolveAllErrSticks(t0, splits, k + 1);
        return res, Failed(SplitParseError(k));
      case Some(Parsed(split)) =>
        dummyNameToRealName := ResolveFromSplit(idToDummyName, dummyNameToRealName, split);
    }
    assert splits[..|splits|] == splits;

    // Step 3
    var tree := new Node[|base|](i requires 0 <= i < |base| => base[i]);
    assert tree[..] == base;
    var updated := RenameDummyEntries(tree, dummyNameToRealName);
    var renamed := res[p.value := publicXml.(content := Parsed(tree[..]))];

    // Step 4
    var error;
    files, error := RewriteReferences(renamed, dummyNameToRealName, manifest);
    outcome := if error.Some? then Failed(error.value) else Fixed(updated);
  }

  /**
   * The function leaves every file as it was when there is no base public.xml, when it has no
   * dummy entries, when it does not parse, or when some split's public.xml does not parse.
   */
  lemma FixLeavesFilesAlone(res: seq<ResFile>, splits: seq<Option<Content>>, manifest: Manifest)
    requires
      || PublicXmlIndex(res).None?
      || res[PublicXmlIndex(res).value].content.Unparsable?
      || (forall i :: 0 <= i < |res[PublicXmlIndex(res).value].content.doc| ==>
            !IsDummyEntry(res[PublicXmlIndex(res).value].content.doc[i]))
      || (exists k :: 0 <= k < |splits| && splits[k] == Some(Unparsable))
    ensures Fix(res, splits, manifest).files == res
    ensures !Fix(res, splits, manifest).outcome.Fixed?
  {
    var p := PublicXmlIndex(res);
    if p.Some? && res[p.value].content.Parsed? {
      var base := res[p.value].content.doc;
      CollectEmpty(base);
      ResolveAllIsConcat(Collect(base), splits);
    }
  }

  /**
   * A file the function changes is the base public.xml, or a file whose name ends in `.xml`
   * (in any case) and which parses; the directory listing itself is kept.
   */
  lemma FixChangesOnly(res: seq<ResFile>, splits: seq<Option<Content>>, manifest: Manifest)
    ensures |Fix(res, splits, manifest).files| == |res|
    ensures forall i :: 0 <= i < |res| ==>
      Fix(res, splits, manifest).files[i].dir == res[i].dir && Fix(res, splits, manifest).files[i].name == res[i].name
    ensures forall i :: 0 <= i < |res| && Fix(res, splits, manifest).files[i] != res[i] ==>
      PublicXmlIndex(res) == Some(i) || (IsXmlName(res[i].name) && res[i].content.Parsed?)
  {
    var p := PublicXmlIndex(res);
    if p.Some? && res[p.value].content.Parsed? {
      var base := res[p.value].content.doc;
      var t := Collect(base);
      if t.idToDummyName != map[] && ResolveAll(t, splits).Ok? {
        var names := ResolveAll(t, splits).value.dummyNameToRealName;
        var renamed := res[p.value := res[p.value].(content := Parsed(RenameDoc(base, names)))];
        WalkOutcome(renamed, names, manifest);
        WalkKeepsListing(renamed, names, manifest);
        var w := Walk(renamed, names, manifest);
        forall i | 0 <= i < |res| && w.files[i] != res[i] && i != p.value
          ensures IsXmlName(res[i].name) && res[i].content.Parsed?
        {
          assert renamed[i] == res[i];
          AppliedChanges(res[i], names, manifest);
        }
      }
    }
  }

  /** When the function runs to its end, the count it logs is the number of entries step 3 renamed. */
  lemma FixCountsRenames(res: seq<ResFile>, splits: seq<Option<Content>>, manifest: Manifest)
    requires Fix(res, splits, manifest).outcome.Fixed?
    ensures PublicXmlIndex(res).Some? && res[PublicXmlIndex(res).value].content.Parsed?
    ensures var base := res[PublicXmlIndex(res).value].content.doc;
      ResolveAll(Collect(base), splits).Ok? &&
      Fix(res, splits, manifest).outcome.updated ==
        |RenamedAt(base, ResolveAll(Collect(base), splits).value.dummyNameToRealName)|
  {
    var base := res[PublicXmlIndex(res).value].content.doc;
    CountRenamesIsSize(base, ResolveAll(Collect(base), splits).value.dummyNameToRealName);
  }
}
