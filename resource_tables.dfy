/**
 * Steps 1 and 2 of `fix_public_resource_ids`: the table from resource id to the
 * `APKTOOL_DUMMY_*` name apktool gave it in the base `public.xml`, and the table from each
 * such dummy name to the real name found for the same id in a split APK's `public.xml`.
 */
module ResourceTables {
  import opened Text
  import opened Xml

  const DummyPrefix := "APKTOOL_DUMMY_"

  /** Why `fix_public_resource_ids` stopped with an exception. */
  datatype FixError =
    | BaseParseError                  // the base public.xml does not parse (step 1)
    | SplitParseError(index: nat)     // the public.xml of split number `index` does not parse (step 2)
    | MissingDummyName(file: string)  // a dummy reference that is not in the table (step 4, KeyError)
    | MissingAndroidNamespace         // the manifest binds no `android` prefix (step 4, KeyError)

  datatype Result<+T> = Ok(value: T) | Err(error: FixError)

  /** `idToDummyName` and `dummyNameToRealName` (a real name of `None` is still unresolved). */
  datatype Tables = Tables(idToDummyName: map<string, string>, dummyNameToRealName: map<string, Option<string>>)

  /** An element of public.xml that steps 1 to 3 look at: a root child with a `name` and an `id`. */
  predicate IsEntry(n: Node) {
    IsRootChild(n) && "name" in n.attrib && "id" in n.attrib
  }

  /** An entry whose name apktool made up. */
  predicate IsDummyEntry(n: Node) {
    IsEntry(n) && StartsWith(n.attrib["name"], DummyPrefix)
  }

  // ---------------------------------------------------------------------------
  // Step 1

  /**
   * One iteration of step 1. The membership test is on the NAME against the keys of
   * `idToDummyName`, which are ids, exactly as the script has it.
   */
  function CollectStep(t: Tables, n: Node): Tables {
    if IsDummyEntry(n) && n.attrib["name"] !in t.idToDummyName then
      Tables(t.idToDummyName[n.attrib["id"] := n.attrib["name"]],
             t.dummyNameToRealName[n.attrib["name"] := None])
    else t
  }

  /** The two tables after step 1 has gone over `base` in document order. */
  function Collect(base: Doc): Tables
    decreases |base|
  {
    if base == [] then Tables(map[], map[])
    else CollectStep(Collect(base[..|base| - 1]), base[|base| - 1])
  }

  /** Step 1 as the script runs it: one pass over the root children of the base public.xml. */
  method CollectDummyNames(base: Doc) returns (idToDummyName: map<string, string>,
                                               dummyNameToRealName: map<string, Option<string>>)
    ensures Tables(idToDummyName, dummyNameToRealName) == Collect(base)
  {
    idToDummyName, dummyNameToRealName := map[], map[];
    for i := 0 to |base|
      invariant Tables(idToDummyName, dummyNameToRealName) == Collect(base[..i])
    {
      assert base[..i + 1][..i] == base[..i];
      var el := base[i];
      if IsRootChild(el) && "name" in el.attrib && "id" in el.attrib {
        if StartsWith(el.attrib["name"], DummyPrefix) && el.attrib["name"] !in idToDummyName {
          idToDummyName := idToDummyName[el.attrib["id"] := el.attrib["name"]];
          dummyNameToRealName := dummyNameToRealName[el.attrib["name"] := None];
        }
      }
    }
    assert base[..|base|] == base;
  }

  /** Every id in the table is the id of a dummy entry of `base`, and maps to that entry's name. */
  ghost predicate IdsFromDummies(t: Tables, base: Doc) {
    forall id :: id in t.idToDummyName ==>
      exists i :: 0 <= i < |base| && IsDummyEntry(base[i])
        && base[i].attrib["id"] == id && base[i].attrib["name"] == t.idToDummyName[id]
  }

  /** Every dummy name in the table is the name of a dummy entry of `base`. */
  ghost predicate NamesFromDummies(t: Tables, base: Doc) {
    forall d :: d in t.dummyNameToRealName ==>
      exists i :: 0 <= i < |base| && IsDummyEntry(base[i]) && base[i].attrib["name"] == d
  }

  /** No dummy name is resolved yet. */
  predicate AllUnresolved(t: Tables) {
    forall d :: d in t.dummyNameToRealName ==> t.dummyNameToRealName[d] == None
  }

  /** Every name `idToDummyName` points at has an entry in `dummyNameToRealName`. */
  predicate IdsNamed(t: Tables) {
    forall id :: id in t.idToDummyName ==> t.idToDummyName[id] in t.dummyNameToRealName
  }

  /** After step 1 the tables hold only dummy entries of the base file, and nothing is resolved. */
  lemma {:induction false} CollectSound(base: Doc)
    ensures IdsFromDummies(Collect(base), base)
    ensures NamesFromDummies(Collect(base), base)
    ensures AllUnresolved(Collect(base))
    ensures IdsNamed(Collect(base))
    decreases |base|
  {
    if base != [] {
      var pre := base[..|base| - 1];
      var n := base[|base| - 1];
      CollectSound(pre);
      var t := Collect(pre);
      var t' := Collect(base);
      assert t' == CollectStep(t, n);
      forall i | 0 <= i < |pre| ensures pre[i] == base[i] { }
      forall id | id in t'.idToDummyName
        ensures exists i :: (0 <= i < |base| && IsDummyEntry(base[i])
          && base[i].attrib["id"] == id && base[i].attrib["name"] == t'.idToDummyName[id])
      {
        if t' != t && id == n.attrib["id"] {
          assert IsDummyEntry(base[|base| - 1]);
        } else {
          assert id in t.idToDummyName && t'.idToDummyName[id] == t.idToDummyName[id];
          var i :| 0 <= i < |pre| && IsDummyEntry(pre[i])
            && pre[i].attrib["id"] == id && pre[i].attrib["name"] == t.idToDummyName[id];
          assert base[i] == pre[i];
        }
      }
      forall d | d in t'.dummyNameToRealName
        ensures exists i :: 0 <= i < |base| && IsDummyEntry(base[i]) && base[i].attrib["name"] == d
      {
        if t' != t && d == n.attrib["name"] {
          assert IsDummyEntry(base[|base| - 1]);
        } else {
          assert d in t.dummyNameToRealName;
          var i :| 0 <= i < |pre| && IsDummyEntry(pre[i]) && pre[i].attrib["name"] == d;
          assert base[i] == pre[i];
        }
      }
    }
  }

  /** Step 1 only adds: the keys of both tables after a prefix are still there after the whole file. */
  lemma {:induction false} CollectGrows(base: Doc, k: nat)
    requires k <= |base|
    ensures Collect(base[..k]).idToDummyName.Keys <= Collect(base).idToDummyName.Keys
    ensures Collect(base[..k]).dummyNameToRealName.Keys <= Collect(base).dummyNameToRealName.Keys
    decreases |base|
  {
    if k < |base| {
      var pre := base[..|base| - 1];
      assert pre[..k] == base[..k];
      CollectGrows(pre, k);
    } else {
      assert base[..k] == base;
    }
  }

  /**
   * Every dummy entry of `base` was entered, unless its name equals an id entered by an earlier
   * element (the quirk of the membership test).
   */
  lemma CollectComplete(base: Doc)
    ensures forall i :: 0 <= i < |base| && IsDummyEntry(base[i]) ==>
      || (base[i].attrib["id"] in Collect(base).idToDummyName
          && base[i].attrib["name"] in Collect(base).dummyNameToRealName)
      || base[i].attrib["name"] in Collect(base[..i]).idToDummyName
  {
    forall i | 0 <= i < |base| && IsDummyEntry(base[i]) && base[i].attrib["name"] !in Collect(base[..i]).idToDummyName
      ensures base[i].attrib["id"] in Collect(base).idToDummyName
      ensures base[i].attrib["name"] in Collect(base).dummyNameToRealName
    {
      assert base[..i + 1][..i] == base[..i];
      CollectGrows(base, i + 1);
    }
  }

  /**
   * Several dummy entries with one id: the id ends up with the name of the last of them that
   * step 1 entered.
   */
  lemma {:induction false} CollectLaterIdWins(base: Doc, j: nat)
    requires j < |base| && IsDummyEntry(base[j])
    requires base[j].attrib["name"] !in Collect(base[..j]).idToDummyName
    requires forall k ::
      (j < k < |base| && IsDummyEntry(base[k]) && base[k].attrib["name"] !in Collect(base[..k]).idToDummyName)
      ==> base[k].attrib["id"] != base[j].attrib["id"]
    ensures base[j].attrib["id"] in Collect(base).idToDummyName
    ensures Collect(base).idToDummyName[base[j].attrib["id"]] == base[j].attrib["name"]
    decreases |base|
  {
    var pre := base[..|base| - 1];
    if j == |base| - 1 {
      assert base[..j] == pre;
    } else {
      assert pre[..j] == base[..j];
      forall k | j < k < |pre| ensures pre[..k] == base[..k] && pre[k] == base[k] { }
      CollectLaterIdWins(pre, j);
      assert pre == base[..|base| - 1];
    }
  }

  /** Step 1 finds nothing exactly when the base file has no dummy entry (the early return). */
  lemma CollectEmpty(base: Doc)
    ensures Collect(base).idToDummyName == map[] <==>
      forall i :: 0 <= i < |base| ==> !IsDummyEntry(base[i])
  {
    CollectSound(base);
    var t := Collect(base);
    if exists i :: 0 <= i < |base| && IsDummyEntry(base[i]) {
      var i :| 0 <= i < |base| && IsDummyEntry(base[i]);
      var before := Collect(base[..i]).idToDummyName;
      CollectGrows(base, i);
      if base[i].attrib["name"] in before {
        assert base[i].attrib["name"] in t.idToDummyName;
      } else {
        assert base[..i + 1][..i] == base[..i];
        CollectGrows(base, i + 1);
        assert base[i].attrib["id"] in t.idToDummyName;
      }
    }
    if t.idToDummyName != map[] {
      var id :| id in t.idToDummyName;
      assert exists i :: 0 <= i < |base| && IsDummyEntry(base[i]) && base[i].attrib["id"] == id;
    }
  }

  /** Two dummy entries with the same id: the later one takes the id, both names stay unresolved. */
  lemma DuplicateIdLaterWins()
    ensures
      var a := Node("public", map["id" := "0x7f010001", "name" := "APKTOOL_DUMMY_1"], None, 1);
      var b := Node("public", map["id" := "0x7f010001", "name" := "APKTOOL_DUMMY_2"], None, 1);
      Collect([a, b]) == Tables(map["0x7f010001" := "APKTOOL_DUMMY_2"],
                                map["APKTOOL_DUMMY_1" := None, "APKTOOL_DUMMY_2" := None])
  {
    var a := Node("public", map["id" := "0x7f010001", "name" := "APKTOOL_DUMMY_1"], None, 1);
    var b := Node("public", map["id" := "0x7f010001", "name" := "APKTOOL_DUMMY_2"], None, 1);
    assert [a, b][..1] == [a];
    assert [a][..0] == [];
    assert "APKTOOL_DUMMY_1"[..|DummyPrefix|] == DummyPrefix;
    assert "APKTOOL_DUMMY_2"[..|DummyPrefix|] == DummyPrefix;
    var t1 := Tables(map["0x7f010001" := "APKTOOL_DUMMY_1"], map["APKTOOL_DUMMY_1" := None]);
    assert Collect([a]) == CollectStep(Tables(map[], map[]), a) == t1;
    assert "APKTOOL_DUMMY_2" !in t1.idToDummyName;
    assert Collect([a, b]) == CollectStep(t1, b);
  }

  // ---------------------------------------------------------------------------
  // Step 2

  /** The split entry `n` carries an id whose dummy name is `d`. */
  predicate ResolvesName(t: Tables, n: Node, d: string) {
    IsEntry(n) && n.attrib["id"] in t.idToDummyName && t.idToDummyName[n.attrib["id"]] == d
  }

  /** One iteration of step 2 over an element of a split's public.xml. */
  function ResolveStep(t: Tables, n: Node): Tables {
    if IsEntry(n) && n.attrib["id"] in t.idToDummyName then
      t.(dummyNameToRealName := t.dummyNameToRealName[t.idToDummyName[n.attrib["id"]] := Some(n.attrib["name"])])
    else t
  }

  /** The tables after step 2 has gone over one split's public.xml in document order. */
  function Resolve(t: Tables, split: Doc): (r: Tables)
    ensures r.idToDummyName == t.idToDummyName
    ensures IdsNamed(t) ==> IdsNamed(r) && r.dummyNameToRealName.Keys == t.dummyNameToRealName.Keys
    decreases |split|
  {
    if split == [] then t else ResolveStep(Resolve(t, split[..|split| - 1]), split[|split| - 1])
  }

  /**
   * Step 2 over every split, in order. A split without a public.xml is passed over; one whose
   * public.xml does not parse raises, which nothing in the script catches.
   */
  function ResolveAll(t: Tables, splits: seq<Option<Content>>): Result<Tables>
    decreases |splits|
  {
    if splits == [] then Ok(t)
    else match ResolveAll(t, splits[..|splits| - 1])
      case Err(e) => Err(e)
      case Ok(t') =>
        match splits[|splits| - 1]
        case None => Ok(t')
        case Some(Unparsable) => Err(SplitParseError(|splits| - 1))
        case Some(Parsed(d)) => Ok(Resolve(t', d))
  }

  /** Step 2 over one split's public.xml, as the script's inner loop runs it. */
  method ResolveFromSplit(idToDummyName: map<string, string>, dummyNameToRealName: map<string, Option<string>>,
                          split: Doc) returns (resolved: map<string, Option<string>>)
    ensures Tables(idToDummyName, resolved) == Resolve(Tables(idToDummyName, dummyNameToRealName), split)
  {
    resolved := dummyNameToRealName;
    for i := 0 to |split|
      invariant Tables(idToDummyName, resolved) == Resolve(Tables(idToDummyName, dummyNameToRealName), split[..i])
    {
      assert split[..i + 1][..i] == split[..i];
      var el := split[i];
      if IsRootChild(el) && "name" in el.attrib && "id" in el.attrib {
        if el.attrib["id"] in idToDummyName {
          resolved := resolved[idToDummyName[el.attrib["id"]] := Some(el.attrib["name"])];
        }
      }
    }
    assert split[..|split|] == split;
  }

  /** A dummy name changes only to the name of a split entry whose id the table ties to that dummy name. */
  lemma {:induction false} ResolveSource(t: Tables, split: Doc, d: string)
    requires d in Resolve(t, split).dummyNameToRealName
    requires d !in t.dummyNameToRealName || Resolve(t, split).dummyNameToRealName[d] != t.dummyNameToRealName[d]
    ensures exists i :: (0 <= i < |split| && ResolvesName(t, split[i], d)
      && Resolve(t, split).dummyNameToRealName[d] == Some(split[i].attrib["name"]))
    decreases |split|
  {
    var pre := split[..|split| - 1];
    var n := split[|split| - 1];
    var r := Resolve(t, pre);
    if ResolvesName(r, n, d) {
      assert ResolvesName(t, split[|split| - 1], d);
    } else {
      assert Resolve(t, split).dummyNameToRealName[d] == r.dummyNameToRealName[d];
      ResolveSource(t, pre, d);
      var i :| 0 <= i < |pre| && ResolvesName(t, pre[i], d)
        && r.dummyNameToRealName[d] == Some(pre[i].attrib["name"]);
      assert split[i] == pre[i];
    }
  }

  /** When several split entries carry ids of dummy name `d`, the last one decides its real name. */
  lemma {:induction false} ResolveLastWins(t: Tables, split: Doc, i: nat, d: string)
    requires i < |split| && ResolvesName(t, split[i], d)
    requires forall j :: i < j < |split| ==> !ResolvesName(t, split[j], d)
    ensures d in Resolve(t, split).dummyNameToRealName
    ensures Resolve(t, split).dummyNameToRealName[d] == Some(split[i].attrib["name"])
    decreases |split|
  {
    var pre := split[..|split| - 1];
    if i < |split| - 1 {
      forall j | i < j < |pre| ensures !ResolvesName(t, pre[j], d) {
        assert pre[j] == split[j];
      }
      assert pre[i] == split[i];
      ResolveLastWins(t, pre, i, d);
      assert !ResolvesName(Resolve(t, pre), split[|split| - 1], d);
    }
  }

  /** Going over two element lists one after the other is going over their concatenation. */
  lemma {:induction false} ResolveAppend(t: Tables, a: Doc, b: Doc)
    ensures Resolve(Resolve(t, a), b) == Resolve(t, a + b)
    decreases |b|
  {
    if b == [] {
      assert a + b == a;
    } else {
      ResolveAppend(t, a, b[..|b| - 1]);
      assert (a + b)[..|a + b| - 1] == a + b[..|b| - 1];
      assert (a + b)[|a + b| - 1] == b[|b| - 1];
    }
  }

  /** The entries of every split that has a public.xml, one split after the other. */
  function SplitEntries(splits: seq<Option<Content>>): Doc
    decreases |splits|
  {
    if splits == [] then []
    else
      var last := match splits[|splits| - 1] case Some(Parsed(d)) => d case _ => [];
      SplitEntries(splits[..|splits| - 1]) + last
  }

  /**
   * Step 2 over all splits fails exactly when some split's public.xml does not parse, and
   * otherwise is step 2 over all their entries in split order; so with `ResolveLastWins`
   * the last split processed wins.
   */
  lemma {:induction false} ResolveAllIsConcat(t: Tables, splits: seq<Option<Content>>)
    ensures ResolveAll(t, splits).Err? <==> exists k :: 0 <= k < |splits| && splits[k] == Some(Unparsable)
    ensures ResolveAll(t, splits).Ok? ==> ResolveAll(t, splits).value == Resolve(t, SplitEntries(splits))
    decreases |splits|
  {
    if splits != [] {
      var pre := splits[..|splits| - 1];
      ResolveAllIsConcat(t, pre);
      forall k | 0 <= k < |pre| ensures pre[k] == splits[k] { }
      match splits[|splits| - 1]
      case None =>
        assert SplitEntries(splits) == SplitEntries(pre) + [];
        assert SplitEntries(pre) + [] == SplitEntries(pre);
      case Some(Unparsable) =>
      case Some(Parsed(d)) =>
        if ResolveAll(t, pre).Ok? {
          ResolveAppend(t, SplitEntries(pre), d);
        }
    }
  }

  /** Once step 2 has failed on a prefix of the splits, it fails the same way on all of them. */
  lemma {:induction false} ResolveAllErrSticks(t: Tables, splits: seq<Option<Content>>, k: nat)
    requires k <= |splits|
    requires ResolveAll(t, splits[..k]).Err?
    ensures ResolveAll(t, splits) == ResolveAll(t, splits[..k])
    decreases |splits| - k
  {
    if k < |splits| {
      assert splits[..k + 1][..k] == splits[..k];
      ResolveAllErrSticks(t, splits, k + 1);
    } else {
      assert splits[..k] == splits;
    }
  }
}
