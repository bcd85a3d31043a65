/**
 * CodeDB: resolving a manifest's dependency names into indices (codedb.zig:80-115) and the loader
 * that initializes a requested entry and everything below it, once (sandbox.zig:539-607).
 */
module CodeDb {
  import opened BigEndian
  import opened Results

  // ---- compileGraph --------------------------------------------------------------------------

  /** A manifest entry. Older manifests carry neither dependencies nor an entrypoint flag. */
  datatype Entry = Entry(name: Bytes, bytes: Bytes, dependencies: Option<seq<Bytes>>, entrypoint: Option<bool>)

  datatype Manifest = Manifest(formatMinor: Option<nat>, entries: seq<Entry>)

  datatype GraphEntry = GraphEntry(name: Bytes, bytes: Bytes, entrypoint: bool, dependencies: seq<nat>)

  function NamesOf(e: Entry): seq<Bytes> {
    if e.dependencies.Some? then e.dependencies.value else []
  }

  predicate NameValid(name: Bytes) {
    name != [] && 0 !in name
  }

  predicate MetadataValid(m: Manifest, e: Entry) {
    && e.dependencies.Some? == e.entrypoint.Some?
    && (m.formatMinor.Some? && m.formatMinor.value >= 1 ==> e.dependencies.Some?)
  }

  /** Some entry before `i` has this name. */
  predicate Precedes(m: Manifest, name: Bytes, i: nat)
    requires i <= |m.entries|
  {
    exists k :: 0 <= k < i && m.entries[k].name == name
  }

  predicate AllDistinct(names: seq<Bytes>) {
    forall a, b :: 0 <= a < b < |names| ==> names[a] != names[b]
  }

  predicate EntryValid(m: Manifest, i: nat)
    requires i < |m.entries|
  {
    var e := m.entries[i];
    && NameValid(e.name) && !Precedes(m, e.name, i) && MetadataValid(m, e)
    && AllDistinct(NamesOf(e))
    && forall d :: 0 <= d < |NamesOf(e)| ==> Precedes(m, NamesOf(e)[d], i)
  }

  /** What the build accepts: legal unique names, and every dependency named once, before its user. */
  predicate ManifestValid(m: Manifest) {
    forall i :: 0 <= i < |m.entries| ==> EntryValid(m, i)
  }

  /** The same conditions of one entry, written out. */
  predicate EntryLegal(m: Manifest, i: nat)
    requires i < |m.entries|
  {
    var e := m.entries[i];
    && |e.name| > 0 && (forall k :: 0 <= k < |e.name| ==> e.name[k] != 0) && !Precedes(m, e.name, i)
    && (e.dependencies.Some? <==> e.entrypoint.Some?)
    && (m.formatMinor.Some? && m.formatMinor.value > 0 ==> e.dependencies.Some?)
    && (e.dependencies.Some? ==>
          && AllDistinct(e.dependencies.value)
          && forall d :: 0 <= d < |e.dependencies.value| ==> Precedes(m, e.dependencies.value[d], i))
  }

  lemma EntryMeaning(m: Manifest, i: nat)
    requires i < |m.entries|
    ensures EntryValid(m, i) <==> EntryLegal(m, i)
  {
    var e := m.entries[i];
    ZeroFree(e.name);
    hide NameValid, Precedes, AllDistinct;
    if e.dependencies.Some? {
      assert NamesOf(e) == e.dependencies.value;
    } else {
      assert NamesOf(e) == [];
      assert AllDistinct([]) by {
        NoneTwice();
      }
    }
  }

  lemma NoneTwice()
    ensures AllDistinct([])
  {
  }

  lemma ZeroFree(name: Bytes)
    ensures NameValid(name) <==> |name| > 0 && forall k :: 0 <= k < |name| ==> name[k] != 0
  {
    if 0 in name {
      var k :| 0 <= k < |name| && name[k] == 0;
    }
  }

  /** A manifest is legal when each of its entries is. */
  lemma ManifestMeaning(m: Manifest)
    ensures ManifestValid(m) <==> forall i :: 0 <= i < |m.entries| ==> EntryLegal(m, i)
  {
    hide EntryValid, EntryLegal;
    forall i | 0 <= i < |m.entries| ensures EntryValid(m, i) <==> EntryLegal(m, i) {
      EntryMeaning(m, i);
    }
  }

  /** Entry `i` of the graph says by index what the manifest says by name. */
  predicate Resolves(m: Manifest, i: nat, g: GraphEntry)
    requires i < |m.entries|
  {
    var e := m.entries[i];
    && g.name == e.name && g.bytes == e.bytes
    && g.entrypoint == (if e.entrypoint.Some? then e.entrypoint.value else true)
    && |g.dependencies| == |NamesOf(e)|
    && forall d :: 0 <= d < |NamesOf(e)| ==>
         g.dependencies[d] < i && m.entries[g.dependencies[d]].name == NamesOf(e)[d]
  }

  /** The index of the first entry before `i` with this name. */
  method FindBefore(m: Manifest, name: Bytes, i: nat) returns (found: Option<nat>)
    requires i <= |m.entries|
    ensures found.Some? ==> found.value < i && m.entries[found.value].name == name
    ensures found.None? ==> !Precedes(m, name, i)
  {
    for k := 0 to i
      invariant forall j :: 0 <= j < k ==> m.entries[j].name != name
    {
      if m.entries[k].name == name {
        return Some(k);
      }
    }
    found := None;
  }

  /** The dependency loop of one entry. */
  method ResolveNames(m: Manifest, i: nat, names: seq<Bytes>) returns (result: Option<seq<nat>>)
    requires i < |m.entries|
    ensures result.Some? <==> AllDistinct(names) && forall d :: 0 <= d < |names| ==> Precedes(m, names[d], i)
    ensures result.Some? ==>
              && |result.value| == |names|
              && forall d :: 0 <= d < |names| ==> result.value[d] < i && m.entries[result.value[d]].name == names[d]
  {
    hide Precedes;
    var indices := new nat[|names|](_ => 0);
    for di := 0 to |names|
      invariant forall a, b :: 0 <= a < b < di ==> names[a] != names[b]
      invariant forall d :: 0 <= d < di ==> Precedes(m, names[d], i)
      invariant forall d :: 0 <= d < di ==> indices[d] < i && m.entries[indices[d]].name == names[d]
    {
      for earlier := 0 to di
        invariant forall a :: 0 <= a < earlier ==> names[a] != names[di]
      {
        if names[earlier] == names[di] {
          return None;
        }
      }
      var found := FindBefore(m, names[di], i);
      if found.None? {
        return None;
      }
      FoundPrecedes(m, names[di], i, found.value);
      indices[di] := found.value;
    }
    result := Some(indices[..]);
  }

  lemma FoundPrecedes(m: Manifest, name: Bytes, i: nat, k: nat)
    requires k < i <= |m.entries| && m.entries[k].name == name
    ensures Precedes(m, name, i)
  {
  }

  lemma ResolvedAt(m: Manifest, i: nat, indices: seq<nat>)
    requires i < |m.entries| && |indices| == |NamesOf(m.entries[i])|
    requires forall d :: 0 <= d < |indices| ==> indices[d] < i && m.entries[indices[d]].name == NamesOf(m.entries[i])[d]
    ensures var e := m.entries[i];
            Resolves(m, i, GraphEntry(e.name, e.bytes,
                                      if e.entrypoint.Some? then e.entrypoint.value else true, indices))
  {
  }

  /** compileGraph: resolved exactly when the manifest is valid. */
  method CompileGraph(m: Manifest) returns (result: Option<seq<GraphEntry>>)
    ensures result.Some? <==> ManifestValid(m)
    ensures result.Some? ==>
              && |result.value| == |m.entries|
              && forall i :: 0 <= i < |m.entries| ==> Resolves(m, i, result.value[i])
  {
    hide Precedes, AllDistinct, NameValid, MetadataValid, Resolves;
    var graph := new GraphEntry[|m.entries|](_ => GraphEntry([], [], true, []));
    for i := 0 to |m.entries|
      invariant forall k :: 0 <= k < i ==> EntryValid(m, k)
      invariant forall k :: 0 <= k < i ==> Resolves(m, k, graph[k])
    {
      var e := m.entries[i];
      ghost var valid := EntryValid(m, i);
      if !NameValid(e.name) {
        return None;
      }
      var duplicate := FindBefore(m, e.name, i);
      if duplicate.Some? {
        FoundPrecedes(m, e.name, i, duplicate.value);
        return None;
      }
      if !MetadataValid(m, e) {
        return None;
      }
      var indices := ResolveNames(m, i, NamesOf(e));
      if indices.None? {
        return None;
      }
      graph[i] := GraphEntry(e.name, e.bytes, if e.entrypoint.Some? then e.entrypoint.value else true, indices.value);
      ResolvedAt(m, i, indices.value);
    }
    result := Some(graph[..]);
  }
}
