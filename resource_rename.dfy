/** Step 3 of `fix_public_resource_ids`: give the base public.xml entries their real names. */
module ResourceRename {
  import opened Xml
  import opened ResourceTables

  /** The entry is renamed: its name is a dummy name whose real name is known. */
  predicate Renames(n: Node, names: map<string, Option<string>>) {
    IsEntry(n) && n.attrib["name"] in names && names[n.attrib["name"]].Some?
  }

  /** An element after step 3. */
  function RenameNode(n: Node, names: map<string, Option<string>>): Node {
    if Renames(n, names) then n.(attrib := n.attrib["name" := names[n.attrib["name"]].value]) else n
  }

  /** The base public.xml after step 3. */
  function RenameDoc(doc: Doc, names: map<string, Option<string>>): Doc {
    seq(|doc|, i requires 0 <= i < |doc| => RenameNode(doc[i], names))
  }

  /** How far the `updated` counter of step 3 goes over `doc`. */
  function CountRenames(doc: Doc, names: map<string, Option<string>>): nat
    decreases |doc|
  {
    if doc == [] then 0
    else CountRenames(doc[..|doc| - 1], names) + (if Renames(doc[|doc| - 1], names) then 1 else 0)
  }

  /** The positions step 3 renames. */
  function RenamedAt(doc: Doc, names: map<string, Option<string>>): set<nat> {
    set i: nat | i < |doc| && Renames(doc[i], names)
  }

  /** Step 3 as the script runs it, renaming the entries of the parsed tree in place. */
  method RenameDummyEntries(tree: array<Node>, names: map<string, Option<string>>) returns (updated: nat)
    modifies tree
    ensures tree[..] == RenameDoc(old(tree[..]), names)
    ensures updated == CountRenames(old(tree[..]), names)
  {
    updated := 0;
    for i := 0 to tree.Length
      invariant forall j :: 0 <= j < i ==> tree[j] == RenameNode(old(tree[j]), names)
      invariant forall j :: i <= j < tree.Length ==> tree[j] == old(tree[j])
      invariant updated == CountRenames(old(tree[..])[..i], names)
    {
      assert old(tree[..])[..i + 1][..i] == old(tree[..])[..i];
      var el := tree[i];
      if IsRootChild(el) && "name" in el.attrib && "id" in el.attrib {
        if el.attrib["name"] in names && names[el.attrib["name"]].Some? {
          tree[i] := el.(attrib := el.attrib["name" := names[el.attrib["name"]].value]);
          updated := updated + 1;
        }
      }
    }
    assert old(tree[..])[..tree.Length] == old(tree[..]);
  }

  /** The counter equals the number of elements step 3 renames. */
  lemma {:induction false} CountRenamesIsSize(doc: Doc, names: map<string, Option<string>>)
    ensures CountRenames(doc, names) == |RenamedAt(doc, names)|
    decreases |doc|
  {
    if doc != [] {
      var pre := doc[..|doc| - 1];
      CountRenamesIsSize(pre, names);
      var last: nat := |doc| - 1;
      assert RenamedAt(doc, names) == RenamedAt(pre, names) + (if Renames(doc[last], names) then {last} else {}) by {
        forall i: nat | i < |pre| ensures pre[i] == doc[i] { }
      }
      assert last !in RenamedAt(pre, names);
    }
  }

  /**
   * Step 3 changes an element only by renaming a dummy entry whose real name is known,
   * and every other element keeps its name and everything else.
   */
  lemma RenameDocChanges(doc: Doc, names: map<string, Option<string>>, i: nat)
    requires i < |doc|
    ensures |RenameDoc(doc, names)| == |doc|
    ensures Renames(doc[i], names) ==>
      && RenameDoc(doc, names)[i].attrib == doc[i].attrib["name" := names[doc[i].attrib["name"]].value]
      && RenameDoc(doc, names)[i].tag == doc[i].tag
      && RenameDoc(doc, names)[i].text == doc[i].text
      && RenameDoc(doc, names)[i].depth == doc[i].depth
    ensures !Renames(doc[i], names) ==> RenameDoc(doc, names)[i] == doc[i]
  {
  }

  /**
   * Across steps 1 to 3: an element renamed by step 3 gets the name of an entry of some
   * split's public.xml whose id step 1 tied to the element's dummy name.
   */
  lemma RenamedFromSplit(base: Doc, splits: seq<Option<Content>>, i: nat)
    requires i < |base|
    requires ResolveAll(Collect(base), splits).Ok?
    requires Renames(base[i], ResolveAll(Collect(base), splits).value.dummyNameToRealName)
    ensures var t := Collect(base);
      var names := ResolveAll(t, splits).value.dummyNameToRealName;
      var entries := SplitEntries(splits);
      exists j :: 0 <= j < |entries| && ResolvesName(t, entries[j], base[i].attrib["name"])
        && RenameDoc(base, names)[i].attrib["name"] == entries[j].attrib["name"]
  {
    var t := Collect(base);
    var d := base[i].attrib["name"];
    CollectSound(base);
    ResolveAllIsConcat(t, splits);
    var entries := SplitEntries(splits);
    var r := Resolve(t, entries);
    assert d !in t.dummyNameToRealName || r.dummyNameToRealName[d] != t.dummyNameToRealName[d];
    ResolveSource(t, entries, d);
  }
}
