/**
 * The header synthesizer of `_formatAPI`: a list of `{key, value}` pairs
 * that starts as `Content-Type`, `Accept` and is updated in place by the
 * headers an endpoint declares.
 */
module Headers {
  import opened Wrappers
  import opened Text

  datatype Header = Header(key: string, value: string)

  /** A header declared by an apiDoc `@apiHeader` annotation. */
  datatype HeaderField = HeaderField(field: string, defaultValue: string)

  /** The two entries every request starts with. */
  function Defaults(): (h: seq<Header>)
    ensures |h| == 2 && h[0].key == "Content-Type" && h[1].key == "Accept"
    ensures DistinctKeys(h)
  {
    [Header("Content-Type", "application/json"), Header("Accept", "application/json")]
  }

  predicate HasKey(h: seq<Header>, k: string) {
    exists i :: 0 <= i < |h| && h[i].key == k
  }

  /** No key appears twice. */
  predicate DistinctKeys(h: seq<Header>) {
    forall i, j :: 0 <= i < j < |h| ==> h[i].key != h[j].key
  }

  /** The value of the first entry with key `k`. */
  function Lookup(h: seq<Header>, k: string): Option<string>
    decreases |h|
  {
    if h == [] then None
    else if h[0].key == k then Some(h[0].value)
    else Lookup(h[1..], k)
  }

  /**
   * The source's escape: apiDoc default values cannot hold spaces, so a
   * `_` stands for one; `replace('_', ' ')` decodes only the first.
   */
  function Unescape(v: string): (r: string)
    ensures |r| == |v|
    ensures '_' !in v ==> r == v
  {
    assert forall j: nat :: OccursAt(v, "_", j) ==> v[j] == '_' by {
      forall j: nat | OccursAt(v, "_", j) ensures v[j] == '_' {
        assert v[j..j + 1][0] == v[j];
      }
    }
    ReplaceFirst(v, "_", " ")
  }

  /** Only the first `_` is decoded: any later `_` stays as it is. */
  lemma UnescapeFirst(a: string, b: string)
    requires '_' !in a
    ensures Unescape(a + "_" + b) == a + " " + b
  {
    var v := a + "_" + b;
    assert OccursAt(v, "_", |a|) by { assert v[|a|..|a| + 1] == "_"; }
    forall j: nat | j < |a| ensures !OccursAt(v, "_", j) {
      assert v[j..j + 1][0] == a[j];
    }
    ReplaceFirstAt(v, "_", " ", |a|);
    assert v[..|a|] == a && v[|a| + 1..] == b;
  }

  /** Every entry with key `k` takes the value `v`. */
  function Overwrite(h: seq<Header>, k: string, v: string): (r: seq<Header>) {
    seq(|h|, i requires 0 <= i < |h| => if h[i].key == k then h[i].(value := v) else h[i])
  }

  /**
   * One declared header: an existing key gets the raw default value, a new
   * key is appended with the unescaped default value.
   */
  function Merge(h: seq<Header>, f: HeaderField): seq<Header> {
    if HasKey(h, f.field) then Overwrite(h, f.field, f.defaultValue)
    else h + [Header(f.field, Unescape(f.defaultValue))]
  }

  /** The declared headers, merged in declaration order. */
  function MergeAll(h: seq<Header>, fs: seq<HeaderField>): seq<Header>
    decreases |fs|
  {
    if fs == [] then h else MergeAll(Merge(h, fs[0]), fs[1..])
  }

  /** The header list of a request whose `header.fields.Header` is `declared`. */
  function Synthesized(declared: Option<seq<HeaderField>>): seq<Header> {
    match declared
    case None => Defaults()
    case Some(fs) => MergeAll(Defaults(), fs)
  }

  /**
   * Overriding an existing key touches only values: the length, every key
   * and so every position stay, and only entries with that key change.
   */
  lemma MergeExisting(h: seq<Header>, f: HeaderField)
    requires HasKey(h, f.field)
    ensures |Merge(h, f)| == |h|
    ensures forall i :: 0 <= i < |h| ==> Merge(h, f)[i].key == h[i].key
    ensures forall i :: 0 <= i < |h| && h[i].key != f.field ==> Merge(h, f)[i] == h[i]
    ensures forall i :: 0 <= i < |h| && h[i].key == f.field ==> Merge(h, f)[i].value == f.defaultValue
  {
  }

  /** A new key is appended after all existing entries, which do not change. */
  lemma MergeNew(h: seq<Header>, f: HeaderField)
    requires !HasKey(h, f.field)
    ensures |Merge(h, f)| == |h| + 1
    ensures Merge(h, f)[..|h|] == h
    ensures Merge(h, f)[|h|] == Header(f.field, Unescape(f.defaultValue))
  {
  }

  /** Merging one header keeps the keys pairwise distinct. */
  lemma MergeKeepsDistinct(h: seq<Header>, f: HeaderField)
    requires DistinctKeys(h)
    ensures DistinctKeys(Merge(h, f))
  {
    if !HasKey(h, f.field) {
      var r := Merge(h, f);
      forall i, j | 0 <= i < j < |r| ensures r[i].key != r[j].key {
        if j == |h| {
          assert h[i].key != f.field;
        }
      }
    }
  }

  /** The keys after merging are the keys before, plus the declared field. */
  lemma MergeKeys(h: seq<Header>, f: HeaderField, k: string)
    ensures HasKey(Merge(h, f), k) <==> HasKey(h, k) || k == f.field
  {
    var r := Merge(h, f);
    if HasKey(h, f.field) {
      if HasKey(r, k) {
        var i :| 0 <= i < |r| && r[i].key == k;
        assert h[i].key == k;
      }
      if HasKey(h, k) {
        var i :| 0 <= i < |h| && h[i].key == k;
        assert r[i].key == k;
      }
    } else {
      assert r[|h|].key == f.field;
      if HasKey(h, k) {
        var i :| 0 <= i < |h| && h[i].key == k;
        assert r[i].key == k;
      }
    }
  }

  /** The merged list is at least as long, and every earlier entry keeps its key and position. */
  lemma {:induction false} MergeAllKeepsPositions(h: seq<Header>, fs: seq<HeaderField>)
    ensures |MergeAll(h, fs)| >= |h|
    ensures forall i :: 0 <= i < |h| ==> MergeAll(h, fs)[i].key == h[i].key
    decreases |fs|
  {
    if fs != [] {
      var h1 := Merge(h, fs[0]);
      if HasKey(h, fs[0].field) { MergeExisting(h, fs[0]); } else { MergeNew(h, fs[0]); }
      MergeAllKeepsPositions(h1, fs[1..]);
    }
  }

  /** Merging any declared headers keeps the keys pairwise distinct. */
  lemma {:induction false} MergeAllKeepsDistinct(h: seq<Header>, fs: seq<HeaderField>)
    requires DistinctKeys(h)
    ensures DistinctKeys(MergeAll(h, fs))
    decreases |fs|
  {
    if fs != [] {
      MergeKeepsDistinct(h, fs[0]);
      MergeAllKeepsDistinct(Merge(h, fs[0]), fs[1..]);
    }
  }

  /** Whether `k` is a key after the first `n` declarations were merged into `h`. */
  predicate KnownBefore(h: seq<Header>, fs: seq<HeaderField>, k: string, n: nat)
    requires n <= |fs|
  {
    HasKey(h, k) || exists i :: 0 <= i < n && fs[i].field == k
  }

  /** Whether `k` is declared among `fs`. */
  predicate Declared(fs: seq<HeaderField>, k: string) {
    exists i :: 0 <= i < |fs| && fs[i].field == k
  }

  /** The index of the last declaration of `k`. */
  function LastDeclaration(fs: seq<HeaderField>, k: string): (j: nat)
    requires Declared(fs, k)
    ensures j < |fs| && fs[j].field == k
    ensures forall i :: j < i < |fs| ==> fs[i].field != k
    decreases |fs|
  {
    if fs[|fs| - 1].field == k then |fs| - 1
    else
      assert Declared(fs[..|fs| - 1], k) by {
        var i :| 0 <= i < |fs| && fs[i].field == k;
        assert fs[..|fs| - 1][i].field == k;
      }
      LastDeclaration(fs[..|fs| - 1], k)
  }

  /**
   * Reference for the value a key ends with: its last declaration decides;
   * that value is unescaped only if the key did not exist before it (it
   * was then appended), and taken raw otherwise (it overwrote). A key never
   * declared keeps its starting value.
   */
  function ExpectedValue(h: seq<Header>, fs: seq<HeaderField>, k: string): Option<string> {
    if Declared(fs, k) then
      var j := LastDeclaration(fs, k);
      if KnownBefore(h, fs, k, j) then Some(fs[j].defaultValue)
      else Some(Unescape(fs[j].defaultValue))
    else Lookup(h, k)
  }

  lemma LookupNone(h: seq<Header>, k: string)
    ensures Lookup(h, k).None? <==> !HasKey(h, k)
    decreases |h|
  {
    if h != [] {
      LookupNone(h[1..], k);
      if HasKey(h, k) && h[0].key != k {
        var i :| 0 <= i < |h| && h[i].key == k;
        assert h[1..][i - 1].key == k;
      }
      if HasKey(h[1..], k) {
        var i :| 0 <= i < |h[1..]| && h[1..][i].key == k;
        assert h[i + 1].key == k;
      }
    }
  }

  /** The value looked up after merging one header. */
  lemma {:induction false} LookupMerge(h: seq<Header>, f: HeaderField, k: string)
    ensures Lookup(Merge(h, f), k) ==
      if k != f.field then Lookup(h, k)
      else if HasKey(h, k) then Some(f.defaultValue)
      else Some(Unescape(f.defaultValue))
    decreases |h|
  {
    if HasKey(h, f.field) {
      LookupOverwrite(h, f.field, f.defaultValue, k);
      if k == f.field { LookupNone(h, k); }
    } else {
      LookupAppend(h, Header(f.field, Unescape(f.defaultValue)), k);
      if k == f.field { LookupNone(h, k); }
    }
  }

  lemma {:induction false} LookupOverwrite(h: seq<Header>, key: string, v: string, k: string)
    ensures Lookup(Overwrite(h, key, v), k) ==
      if k == key && Lookup(h, k).Some? then Some(v) else Lookup(h, k)
    decreases |h|
  {
    if h != [] {
      assert Overwrite(h, key, v)[1..] == Overwrite(h[1..], key, v);
      LookupOverwrite(h[1..], key, v, k);
    }
  }

  lemma {:induction false} LookupAppend(h: seq<Header>, e: Header, k: string)
    ensures Lookup(h + [e], k) == if Lookup(h, k).Some? then Lookup(h, k) else if e.key == k then Some(e.value) else None
    decreases |h|
  {
    if h == [] {
      assert [] + [e] == [e];
      assert [e][1..] == [];
    } else {
      assert (h + [e])[1..] == h[1..] + [e];
      LookupAppend(h[1..], e, k);
    }
  }

  /** Knowing `k` before declaration `n + 1` of `fs` is knowing it before declaration `n` after merging `fs[0]`. */
  lemma KnownBeforeShift(h: seq<Header>, fs: seq<HeaderField>, k: string, n: nat)
    requires n < |fs| - 1
    ensures KnownBefore(Merge(h, fs[0]), fs[1..], k, n) <==> KnownBefore(h, fs, k, n + 1)
  {
    var rest := fs[1..];
    MergeKeys(h, fs[0], k);
    if KnownBefore(h, fs, k, n + 1) && !HasKey(h, k) && k != fs[0].field {
      var i :| 0 <= i < n + 1 && fs[i].field == k;
      assert rest[i - 1].field == k;
    }
    if exists i :: 0 <= i < n && rest[i].field == k {
      var i :| 0 <= i < n && rest[i].field == k;
      assert fs[i + 1].field == k;
    }
  }

  /**
   * The value each key ends with after merging all declared headers is the
   * one `ExpectedValue` names.
   */
  lemma {:induction false} MergeAllValue(h: seq<Header>, fs: seq<HeaderField>, k: string)
    ensures Lookup(MergeAll(h, fs), k) == ExpectedValue(h, fs, k)
    decreases |fs|
  {
    if fs == [] {
    } else {
      var f := fs[0];
      var h1 := Merge(h, f);
      var rest := fs[1..];
      MergeAllValue(h1, rest, k);
      LookupMerge(h, f, k);
      MergeKeys(h, f, k);
      if Declared(rest, k) {
        var j' := LastDeclaration(rest, k);
        var j := LastDeclaration(fs, k);
        assert fs[j' + 1] == rest[j'];
        assert j == j' + 1;
        KnownBeforeShift(h, fs, k, j');
      } else if k == f.field {
        var j := LastDeclaration(fs, k);
        assert j == 0;
        assert Declared(fs, k);
      } else {
        assert !Declared(fs, k);
      }
    }
  }

  /**
   * The `forEach` over the header list: every entry whose key is `f.field`
   * takes `f.defaultValue`; `isKey` records whether there was one.
   */
  method OverwriteMatching(header: seq<Header>, f: HeaderField) returns (updated: seq<Header>, isKey: bool)
    ensures updated == Overwrite(header, f.field, f.defaultValue)
    ensures isKey == HasKey(header, f.field)
  {
    updated := header;
    isKey := false;
    var i := 0;
    while i < |updated|
      invariant 0 <= i <= |updated| == |header|
      invariant forall m :: 0 <= m < i ==>
        updated[m] == (if header[m].key == f.field then header[m].(value := f.defaultValue) else header[m])
      invariant forall m :: i <= m < |header| ==> updated[m] == header[m]
      invariant isKey <==> exists m :: 0 <= m < i && header[m].key == f.field
    {
      if updated[i].key == f.field {
        updated := updated[i := updated[i].(value := f.defaultValue)];
        isKey := true;
      }
      i := i + 1;
    }
  }

  /**
   * `_formatAPI`'s header loop: for each declared header, every entry
   * with that key takes its raw default value; if none did, the header is
   * appended with its first `_` turned into a space.
   */
  method SynthesizeHeaders(declared: Option<seq<HeaderField>>) returns (header: seq<Header>)
    ensures header == Synthesized(declared)
    ensures DistinctKeys(header)
    ensures |header| >= 2 && header[0].key == "Content-Type" && header[1].key == "Accept"
  {
    header := Defaults();
    if declared.Some? {
      var fields := declared.value;
      var ii := 0;
      while ii < |fields|
        invariant 0 <= ii <= |fields|
        invariant MergeAll(header, fields[ii..]) == MergeAll(Defaults(), fields)
      {
        var f := fields[ii];
        var isKey;
        ghost var before := header;
        header, isKey := OverwriteMatching(header, f);
        if !isKey {
          header := header + [Header(f.field, Unescape(f.defaultValue))];
        }
        assert header == Merge(before, f);
        assert fields[ii..][1..] == fields[ii + 1..];
        ii := ii + 1;
      }
    }
    MergeAllKeepsPositions(Defaults(), if declared.Some? then declared.value else []);
    MergeAllKeepsDistinct(Defaults(), if declared.Some? then declared.value else []);
  }
}
