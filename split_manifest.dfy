/**
 * `disable_split_apk`: strip the split-APK markers from the decoded `AndroidManifest.xml`.
 * The split attributes go from `manifest` and `application`, `extractNativeLibs` is forced to
 * "true" where it is present, and the split meta-data elements are removed from the last
 * `application` element.
 */
module SplitManifest {
  import opened Xml

  /** Why the function stopped with an exception; the manifest is then not written. */
  datatype DisableError =
    | ManifestParseError        // AndroidManifest.xml does not parse
    | MissingAndroidNamespace   // no `android` prefix is declared (KeyError)
    | NotAChild(element: nat)   // `appEl.remove` of an element that is not its child (ValueError)

  /** What ends up on disk: the manifest written back, or an exception. */
  datatype Disabled = Written(doc: Doc) | Failed(error: DisableError)

  const SplitsRequired := "com.android.vending.splits.required"
  const Splits := "com.android.vending.splits"

  /** ElementTree's `{uri}` prefix for attributes in the namespace bound to `android`. */
  function NsPrefix(uri: string): string {
    "{" + uri + "}"
  }

  /** The attribute edits of lines 274-284 on one element. */
  function EditNode(n: Node, ns: string): Node {
    if n.tag == "manifest" then
      n.(attrib := n.attrib - {ns + "requiredSplitTypes", ns + "splitTypes"})
    else if n.tag == "application" then
      var a := n.attrib - {ns + "isSplitRequired"};
      n.(attrib := if ns + "extractNativeLibs" in a then a[ns + "extractNativeLibs" := "true"] else a)
    else n
  }

  /** The whole tree after the attribute edits. */
  function EditDoc(doc: Doc, ns: string): (r: Doc)
    ensures |r| == |doc|
  {
    seq(|doc|, i requires 0 <= i < |doc| => EditNode(doc[i], ns))
  }

  /** The meta-data elements the script looks for. */
  predicate IsSplitMetaData(n: Node, ns: string) {
    && n.tag == "meta-data"
    && ns + "name" in n.attrib
    && (n.attrib[ns + "name"] == SplitsRequired || n.attrib[ns + "name"] == Splits)
  }

  /** `appEl` after the loop has gone over `doc`: the position of the last `application` element. */
  function LastApp(doc: Doc): (a: Option<nat>)
    ensures a.Some? ==> a.value < |doc| && doc[a.value].tag == "application"
    ensures forall j :: 0 <= j < |doc| && doc[j].tag == "application" ==> a.Some? && j <= a.value
    decreases |doc|
  {
    if doc == [] then None
    else if doc[|doc| - 1].tag == "application" then Some(|doc| - 1)
    else LastApp(doc[..|doc| - 1])
  }

  /** `elsToRemove` after the loop has gone over `doc`: positions of split meta-data met once `appEl` is set. */
  function Collected(doc: Doc, ns: string): seq<nat>
    decreases |doc|
  {
    if doc == [] then []
    else
      var pre := doc[..|doc| - 1];
      var n := doc[|doc| - 1];
      if n.tag != "manifest" && n.tag != "application" && LastApp(pre).Some? && IsSplitMetaData(n, ns)
      then Collected(pre, ns) + [|doc| - 1]
      else Collected(pre, ns)
  }

  /** Position `i` is kept: it is not one of the removed elements nor inside one. */
  predicate Kept(doc: Doc, els: seq<nat>, i: nat) {
    forall k :: 0 <= k < |els| ==> !InSubtree(doc, els[k], i)
  }

  /** The kept positions among the first `n`, in document order. */
  function KeptIndices(doc: Doc, els: seq<nat>, n: nat): (kept: seq<nat>)
    requires n <= |doc|
    ensures forall k :: 0 <= k < |kept| ==> kept[k] < n
    ensures forall i :: 0 <= i < n ==> (i in kept <==> Kept(doc, els, i))
    ensures forall k, l :: 0 <= k < l < |kept| ==> kept[k] < kept[l]
    decreases n
  {
    if n == 0 then []
    else KeptIndices(doc, els, n - 1) + (if Kept(doc, els, n - 1) then [n - 1] else [])
  }

  /** The elements at the given positions, in that order. */
  function Project(doc: Doc, at: seq<nat>): Doc
    requires forall k :: 0 <= k < |at| ==> at[k] < |doc|
  {
    seq(|at|, k requires 0 <= k < |at| => doc[at[k]])
  }

  /** The first removal `appEl.remove` refuses, as a position in `els`. */
  function FirstNotChild(doc: Doc, app: Option<nat>, els: seq<nat>): (k: Option<nat>)
    ensures k.Some? ==> k.value < |els| && !(app.Some? && IsChildOf(doc, els[k.value], app.value))
    ensures forall j :: 0 <= j < |els| && (k.None? || j < k.value) ==> app.Some? && IsChildOf(doc, els[j], app.value)
    decreases |els|
  {
    if els == [] then None
    else if !(app.Some? && IsChildOf(doc, els[0], app.value)) then Some(0)
    else
      var rest := FirstNotChild(doc, app, els[1..]);
      assert forall j :: 0 < j < |els| ==> els[j] == els[1..][j - 1];
      if rest.Some? then Some(rest.value + 1) else None
  }

  /** The whole function on the manifest as read from disk. */
  function Disable(m: Manifest): Disabled {
    match m.content
    case Unparsable => Failed(ManifestParseError)
    case Parsed(doc) =>
      if m.androidUri.None? then Failed(MissingAndroidNamespace)
      else
        var ns := NsPrefix(m.androidUri.value);
        var edited := EditDoc(doc, ns);
        var els := Collected(doc, ns);
        match FirstNotChild(edited, LastApp(doc), els)
        case Some(k) => Failed(NotAChild(els[k]))
        case None => Written(Project(edited, KeptIndices(edited, els, |edited|)))
  }

  // ---------------------------------------------------------------------------
  // The loops

  /** The attribute edits of lines 274-284, written as the script does them, on one element. */
  method EditElement(el: Node, ns: string) returns (edited: Node)
    ensures edited == EditNode(el, ns)
  {
    var attrib := el.attrib;
    if el.tag == "manifest" {
      if ns + "requiredSplitTypes" in attrib {
        attrib := attrib - {ns + "requiredSplitTypes"};
      }
      if ns + "splitTypes" in attrib {
        attrib := attrib - {ns + "splitTypes"};
      }
      assert attrib == el.attrib - {ns + "requiredSplitTypes", ns + "splitTypes"};
    } else if el.tag == "application" {
      if ns + "isSplitRequired" in attrib {
        attrib := attrib - {ns + "isSplitRequired"};
      }
      assert attrib == el.attrib - {ns + "isSplitRequired"};
      if ns + "extractNativeLibs" in attrib {
        attrib := attrib[ns + "extractNativeLibs" := "true"];
      }
    }
    edited := el.(attrib := attrib);
  }

  /** One more element for `LastApp` and `Collected`. */
  lemma CollectOneMore(doc: Doc, ns: string, i: nat)
    requires i < |doc|
    ensures LastApp(doc[..i + 1]) == if doc[i].tag == "application" then Some(i) else LastApp(doc[..i])
    ensures Collected(doc[..i + 1], ns) ==
      if doc[i].tag != "manifest" && doc[i].tag != "application" && LastApp(doc[..i]).Some? && IsSplitMetaData(doc[i], ns)
      then Collected(doc[..i], ns) + [i] else Collected(doc[..i], ns)
  {
    assert doc[..i + 1][..i] == doc[..i];
    assert doc[..i + 1][i] == doc[i];
  }

  /** The loop of lines 273-290: edit attributes in place, remember `appEl`, collect `elsToRemove`. */
  method EditAndCollect(tree: array<Node>, ns: string) returns (appEl: Option<nat>, elsToRemove: seq<nat>)
    modifies tree
    ensures tree[..] == EditDoc(old(tree[..]), ns)
    ensures appEl == LastApp(old(tree[..]))
    ensures elsToRemove == Collected(old(tree[..]), ns)
  {
    appEl, elsToRemove := None, [];
    ghost var doc := tree[..];
    for i := 0 to tree.Length
      invariant forall j :: 0 <= j < i ==> tree[j] == EditNode(doc[j], ns)
      invariant forall j :: i <= j < tree.Length ==> tree[j] == doc[j]
      invariant appEl == LastApp(doc[..i])
      invariant elsToRemove == Collected(doc[..i], ns)
    {
      CollectOneMore(doc, ns, i);
      var el := tree[i];
      if el.tag == "application" {
        appEl := Some(i);
      } else if el.tag != "manifest" && appEl.Some? && el.tag == "meta-data" {
        if ns + "name" in el.attrib {
          if el.attrib[ns + "name"] == SplitsRequired {
            elsToRemove := elsToRemove + [i];
          } else if el.attrib[ns + "name"] == Splits {
            elsToRemove := elsToRemove + [i];
          }
        }
      }
      tree[i] := EditElement(el, ns);
    }
    assert doc[..tree.Length] == doc;
    assert tree[..] == EditDoc(doc, ns);
  }

  /** `for el in elsToRemove: appEl.remove(el)`: the first removal that raises, if any. */
  method CheckRemovals(doc: Doc, appEl: Option<nat>, elsToRemove: seq<nat>) returns (bad: Option<nat>)
    ensures bad == FirstNotChild(doc, appEl, elsToRemove)
  {
    for k := 0 to |elsToRemove|
      invariant forall j :: 0 <= j < k ==> appEl.Some? && IsChildOf(doc, elsToRemove[j], appEl.value)
    {
      if appEl.None? || !IsChildOf(doc, elsToRemove[k], appEl.value) {
        return Some(k);
      }
    }
    bad := None;
  }

  lemma ProjectOneMore(doc: Doc, at: seq<nat>, i: nat)
    requires i < |doc|
    requires forall k :: 0 <= k < |at| ==> at[k] < |doc|
    ensures Project(doc, at + [i]) == Project(doc, at) + [doc[i]]
  {
  }

  /** `tree.write(...)` after the removals: every element that is not inside a removed one. */
  method WriteKept(doc: Doc, removed: seq<nat>) returns (out: Doc)
    ensures out == Project(doc, KeptIndices(doc, removed, |doc|))
  {
    out := [];
    for i := 0 to |doc|
      invariant out == Project(doc, KeptIndices(doc, removed, i))
    {
      if Kept(doc, removed, i) {
        ProjectOneMore(doc, KeptIndices(doc, removed, i), i);
        out := out + [doc[i]];
      }
    }
  }

  /** The script as it runs: parse, edit and collect, remove from `appEl`, write back. */
  method DisableSplitApk(m: Manifest) returns (r: Disabled)
    ensures r == Disable(m)
  {
    if m.content.Unparsable? {
      return Failed(ManifestParseError);
    }
    if m.androidUri.None? {
      return Failed(MissingAndroidNamespace);
    }
    var doc := m.content.doc;
    var ns := NsPrefix(m.androidUri.value);
    var tree := new Node[|doc|](i requires 0 <= i < |doc| => doc[i]);
    assert tree[..] == doc;
    var appEl, elsToRemove := EditAndCollect(tree, ns);
    var bad := CheckRemovals(tree[..], appEl, elsToRemove);
    if bad.Some? {
      return Failed(NotAChild(elsToRemove[bad.value]));
    }
    var out := WriteKept(tree[..], elsToRemove);
    r := Written(out);
  }

  // ---------------------------------------------------------------------------
  // Properties

  /**
   * The edits on one element: `manifest` loses exactly its two split attributes, `application`
   * loses `isSplitRequired` and has `extractNativeLibs` set to "true" if and only if it had it,
   * every other attribute and every other element are left alone.
   */
  lemma EditNodeEffect(n: Node, ns: string)
    ensures EditNode(n, ns).tag == n.tag && EditNode(n, ns).text == n.text && EditNode(n, ns).depth == n.depth
    ensures n.tag == "manifest" ==>
      && ns + "requiredSplitTypes" !in EditNode(n, ns).attrib
      && ns + "splitTypes" !in EditNode(n, ns).attrib
      && forall k :: k != ns + "requiredSplitTypes" && k != ns + "splitTypes" ==>
           (k in EditNode(n, ns).attrib <==> k in n.attrib)
           && (k in n.attrib ==> EditNode(n, ns).attrib[k] == n.attrib[k])
    ensures n.tag == "application" ==>
      && ns + "isSplitRequired" !in EditNode(n, ns).attrib
      && (ns + "extractNativeLibs" in EditNode(n, ns).attrib <==> ns + "extractNativeLibs" in n.attrib)
      && (ns + "extractNativeLibs" in n.attrib ==> EditNode(n, ns).attrib[ns + "extractNativeLibs"] == "true")
      && forall k :: k != ns + "isSplitRequired" && k != ns + "extractNativeLibs" ==>
           (k in EditNode(n, ns).attrib <==> k in n.attrib)
           && (k in n.attrib ==> EditNode(n, ns).attrib[k] == n.attrib[k])
    ensures n.tag != "manifest" && n.tag != "application" ==> EditNode(n, ns) == n
  {
    assert |ns + "isSplitRequired"| != |ns + "extractNativeLibs"|;
  }

  /** A position is collected exactly when it holds split meta-data and some `application` comes before it. */
  lemma {:induction false} CollectedIff(doc: Doc, ns: string, x: int)
    ensures x in Collected(doc, ns) <==>
      0 <= x < |doc| && IsSplitMetaData(doc[x], ns) && exists a :: 0 <= a < x && doc[a].tag == "application"
    decreases |doc|
  {
    if doc != [] {
      var pre := doc[..|doc| - 1];
      CollectedIff(pre, ns, x);
      if 0 <= x < |pre| {
        assert pre[x] == doc[x];
        assert forall a :: 0 <= a < x ==> pre[a] == doc[a];
      }
      if x == |doc| - 1 {
        assert x !in Collected(pre, ns) by {
          CollectedBelow(pre, ns);
        }
        if exists a :: 0 <= a < x && doc[a].tag == "application" {
          var a :| 0 <= a < x && doc[a].tag == "application";
          assert pre[a] == doc[a];
        }
        if LastApp(pre).Some? {
          assert pre[LastApp(pre).value] == doc[LastApp(pre).value];
        }
      }
    }
  }

  /** Collected positions lie inside the document. */
  lemma {:induction false} CollectedBelow(doc: Doc, ns: string)
    ensures forall k :: 0 <= k < |Collected(doc, ns)| ==> Collected(doc, ns)[k] < |doc|
    decreases |doc|
  {
    if doc != [] {
      CollectedBelow(doc[..|doc| - 1], ns);
    }
  }

  /** No written element still carries a split attribute, and `extractNativeLibs` reads "true" wherever it is left. */
  lemma DisableStripsAttributes(m: Manifest)
    requires Disable(m).Written?
    ensures var ns := NsPrefix(m.androidUri.value);
      forall k :: 0 <= k < |Disable(m).doc| ==>
        var n := Disable(m).doc[k];
        && (n.tag == "manifest" ==> ns + "requiredSplitTypes" !in n.attrib && ns + "splitTypes" !in n.attrib)
        && (n.tag == "application" ==> ns + "isSplitRequired" !in n.attrib)
        && (n.tag == "application" && ns + "extractNativeLibs" in n.attrib ==> n.attrib[ns + "extractNativeLibs"] == "true")
  {
  }

  /**
   * When the manifest is written, a split meta-data element directly under the last
   * `application` is gone, together with everything inside it, and every other element is
   * written in document order with only its attribute edits.
   */
  lemma DisableRemovesSplitMetaData(m: Manifest, i: nat)
    requires Disable(m).Written?
    requires i < |m.content.doc|
    ensures var ns := NsPrefix(m.androidUri.value);
      var doc := m.content.doc;
      var edited := EditDoc(doc, ns);
      var kept := KeptIndices(edited, Collected(doc, ns), |doc|);
      && Disable(m).doc == Project(edited, kept)
      && (LastApp(doc).Some? && IsChildOf(doc, i, LastApp(doc).value) && IsSplitMetaData(doc[i], ns) ==> i !in kept)
      && (i in kept <==> forall c :: c in Collected(doc, ns) ==> !InSubtree(doc, c, i))
  {
    var ns := NsPrefix(m.androidUri.value);
    var doc := m.content.doc;
    var edited := EditDoc(doc, ns);
    var els := Collected(doc, ns);
    assert forall j :: 0 <= j < |doc| ==> edited[j].depth == doc[j].depth by {
      forall j | 0 <= j < |doc| { EditNodeEffect(doc[j], ns); }
    }
    assert forall r, j :: InSubtree(doc, r, j) <==> InSubtree(edited, r, j);
    if LastApp(doc).Some? && IsChildOf(doc, i, LastApp(doc).value) && IsSplitMetaData(doc[i], ns) {
      CollectedIff(doc, ns, i);
      var k :| 0 <= k < |els| && els[k] == i;
      assert InSubtree(edited, els[k], i);
    }
  }

  /** The function fails on removal exactly when some collected meta-data is not a direct child of the last `application`. */
  lemma DisableFailsOnRemoval(m: Manifest)
    requires m.content.Parsed? && m.androidUri.Some?
    ensures var ns := NsPrefix(m.androidUri.value);
      var doc := m.content.doc;
      Disable(m).Failed? <==>
        exists c :: c in Collected(doc, ns) && !(LastApp(doc).Some? && IsChildOf(doc, c, LastApp(doc).value))
  {
    var ns := NsPrefix(m.androidUri.value);
    var doc := m.content.doc;
    var edited := EditDoc(doc, ns);
    assert forall j :: 0 <= j < |doc| ==> edited[j].depth == doc[j].depth by {
      forall j | 0 <= j < |doc| { EditNodeEffect(doc[j], ns); }
    }
    assert forall j, a :: IsChildOf(doc, j, a) <==> IsChildOf(edited, j, a);
    var els := Collected(doc, ns);
    var bad := FirstNotChild(edited, LastApp(doc), els);
    if bad.Some? {
      assert els[bad.value] in els;
    } else {
      forall c | c in els ensures LastApp(doc).Some? && IsChildOf(doc, c, LastApp(doc).value) {
        var j :| 0 <= j < |els| && els[j] == c;
      }
    }
  }
}
