/** The term glossary kept next to a series: a JSON list of entries, each
    mapping language codes to one term (`{"en": "Hero", "es": "Héroe"}`).
    `load_glossary` builds the source-to-target lookup handed to the
    model; `update_glossary` merges the terms the model returns. */
module Glossary {
  import opened Common

  /** One glossary entry: language code to term. */
  type Entry = map<string, string>

  /** A (source term, translated term) pair as the model returns it. */
  type Pair = (string, string)

  // ---------------------------------------------------------------------
  // load_glossary
  // ---------------------------------------------------------------------

  /** Entry `e` carries both languages and its source term is `k`. */
  predicate Gives(e: Entry, src: string, tgt: string, k: string)
  {
    src in e && tgt in e && e[src] == k
  }

  /** `{item[src]: item[tgt] for item in existing if src in item and tgt in item}`:
      entries are taken in order, so a later entry overwrites an earlier
      one with the same source term. */
  function LookupMap(entries: seq<Entry>, src: string, tgt: string): map<string, string>
    decreases |entries|
  {
    if |entries| == 0 then map[]
    else
      var m := LookupMap(entries[..|entries| - 1], src, tgt);
      var e := entries[|entries| - 1];
      if src in e && tgt in e then m[e[src] := e[tgt]] else m
  }

  /** A term is a key of the lookup map exactly when some entry with both
      languages has it as its source term. */
  lemma {:induction false} LookupMapKeys(entries: seq<Entry>, src: string, tgt: string, k: string)
    ensures k in LookupMap(entries, src, tgt)
            <==> exists i :: 0 <= i < |entries| && Gives(entries[i], src, tgt, k)
    decreases |entries|
  {
    if |entries| > 0 {
      var n := |entries| - 1;
      var prefix := entries[..n];
      LookupMapKeys(prefix, src, tgt, k);
      assert forall i :: 0 <= i < n ==> prefix[i] == entries[i];
      if Gives(entries[n], src, tgt, k) {
        assert k in LookupMap(entries, src, tgt);
      } else {
        assert k in LookupMap(entries, src, tgt) <==> k in LookupMap(prefix, src, tgt);
      }
    }
  }

  /** The lookup value of a source term comes from the last entry with
      both languages that has that source term. */
  lemma {:induction false} LookupMapLastWins(entries: seq<Entry>, src: string, tgt: string, i: nat)
    requires i < |entries| && src in entries[i] && tgt in entries[i]
    requires forall j :: i < j < |entries| ==> !Gives(entries[j], src, tgt, entries[i][src])
    ensures entries[i][src] in LookupMap(entries, src, tgt)
    ensures LookupMap(entries, src, tgt)[entries[i][src]] == entries[i][tgt]
    decreases |entries|
  {
    var n := |entries| - 1;
    if i < n {
      var prefix := entries[..n];
      assert forall j :: i < j < n ==> prefix[j] == entries[j];
      LookupMapLastWins(prefix, src, tgt, i);
      assert !Gives(entries[n], src, tgt, entries[i][src]);
    }
  }

  /** The text given to the model as glossary context: the lookup map as
      JSON, or the words "Not Available" when there is no glossary file. */
  datatype Context = NotAvailable | Dumped(lookup: map<string, string>)

  datatype Loaded = Loaded(entries: seq<Entry>, lookup: map<string, string>, context: Context)

  /** `load_glossary`; `file` is the parsed "GLOSSARY" list, or `None` when
      the file does not exist. */
  function LoadGlossary(file: Option<seq<Entry>>, src: string, tgt: string): (r: Loaded)
    ensures file.None? ==> r.entries == [] && r.lookup == map[] && r.context == NotAvailable
    ensures file.Some? ==> r.entries == file.value && r.context == Dumped(r.lookup)
    ensures forall k :: k in r.lookup <==> exists i :: 0 <= i < |r.entries| && Gives(r.entries[i], src, tgt, k)
  {
    match file
    case None => Loaded([], map[], NotAvailable)
    case Some(entries) =>
      LookupMapKeysAll(entries, src, tgt);
      var m := LookupMap(entries, src, tgt);
      Loaded(entries, m, Dumped(m))
  }

  lemma LookupMapKeysAll(entries: seq<Entry>, src: string, tgt: string)
    ensures forall k :: k in LookupMap(entries, src, tgt)
                        <==> exists i :: 0 <= i < |entries| && Gives(entries[i], src, tgt, k)
  {
    forall k
      ensures k in LookupMap(entries, src, tgt)
              <==> exists i :: 0 <= i < |entries| && Gives(entries[i], src, tgt, k)
    {
      LookupMapKeys(entries, src, tgt, k);
    }
  }

  // ---------------------------------------------------------------------
  // new_glossary: an insertion-ordered dict built from the model's pairs
  // ---------------------------------------------------------------------

  /** No key appears twice in an ordered dict. */
  predicate DistinctKeys(d: seq<Pair>)
  {
    forall a, b :: 0 <= a < b < |d| ==> d[a].0 != d[b].0
  }

  /** `d[k]`, or `None` when `k` is not a key. */
  function Lookup(d: seq<Pair>, k: string): Option<string>
  {
    if |d| == 0 then None
    else if d[0].0 == k then Some(d[0].1)
    else Lookup(d[1..], k)
  }

  /** `d[k] = v` on an insertion-ordered dict: an existing key keeps its
      place and takes the new value; a new key goes at the end. */
  function Put(d: seq<Pair>, k: string, v: string): (r: seq<Pair>)
    ensures |r| == |d| || |r| == |d| + 1
    ensures forall j :: 0 <= j < |d| ==> r[j].0 == d[j].0
    ensures |r| == |d| + 1 ==> r[|d|].0 == k
  {
    if |d| == 0 then [(k, v)]
    else if d[0].0 == k then [(k, v)] + d[1..]
    else [d[0]] + Put(d[1..], k, v)
  }

  /** Putting a key keeps the keys distinct. */
  lemma {:induction false} PutDistinct(d: seq<Pair>, k: string, v: string)
    requires DistinctKeys(d)
    ensures DistinctKeys(Put(d, k, v))
    decreases |d|
  {
    if |d| > 0 && d[0].0 != k {
      var rest := Put(d[1..], k, v);
      assert DistinctKeys(d[1..]) by {
        forall a, b | 0 <= a < b < |d| - 1
          ensures d[1..][a].0 != d[1..][b].0
        {
          assert d[1..][a] == d[a + 1] && d[1..][b] == d[b + 1];
        }
      }
      PutDistinct(d[1..], k, v);
      var r := [d[0]] + rest;
      forall b | 0 < b < |r|
        ensures r[b].0 != d[0].0
      {
        assert r[b] == rest[b - 1];
        if b - 1 < |d| - 1 {
          assert rest[b - 1].0 == d[1..][b - 1].0 == d[b].0;
        }
      }
      forall a, b | 0 < a < b < |r|
        ensures r[a].0 != r[b].0
      {
        assert r[a] == rest[a - 1] && r[b] == rest[b - 1];
      }
    } else if |d| > 0 {
      var r := [(k, v)] + d[1..];
      forall a, b | 0 <= a < b < |r|
        ensures r[a].0 != r[b].0
      {
        assert r[b] == d[b];
        if a > 0 {
          assert r[a] == d[a];
        }
      }
    }
  }

  /** After `d[k] = v`, `k` maps to `v` and every other key is unchanged. */
  lemma {:induction false} PutLookup(d: seq<Pair>, k: string, v: string, k': string)
    ensures Lookup(Put(d, k, v), k') == if k' == k then Some(v) else Lookup(d, k')
    decreases |d|
  {
    if |d| > 0 && d[0].0 != k {
      PutLookup(d[1..], k, v, k');
      assert ([d[0]] + Put(d[1..], k, v))[1..] == Put(d[1..], k, v);
    } else if |d| > 0 {
      assert ([(k, v)] + d[1..])[1..] == d[1..];
    }
  }

  /** `{item["source_term"]: item["translated_term"] for item in pairs}`. */
  function NewGlossary(pairs: seq<Pair>): seq<Pair>
    decreases |pairs|
  {
    if |pairs| == 0 then []
    else
      var last := pairs[|pairs| - 1];
      Put(NewGlossary(pairs[..|pairs| - 1]), last.0, last.1)
  }

  /** The value of the last pair with source term `k`: a later duplicate
      wins. */
  function LastValue(pairs: seq<Pair>, k: string): Option<string>
    decreases |pairs|
  {
    if |pairs| == 0 then None
    else if pairs[|pairs| - 1].0 == k then Some(pairs[|pairs| - 1].1)
    else LastValue(pairs[..|pairs| - 1], k)
  }

  /** The dict holds every source term once, with the translated term of
      its last occurrence. */
  lemma {:induction false} NewGlossaryLastWins(pairs: seq<Pair>, k: string)
    ensures DistinctKeys(NewGlossary(pairs))
    ensures Lookup(NewGlossary(pairs), k) == LastValue(pairs, k)
    decreases |pairs|
  {
    if |pairs| > 0 {
      var last := pairs[|pairs| - 1];
      var prefix := pairs[..|pairs| - 1];
      NewGlossaryLastWins(prefix, k);
      PutDistinct(NewGlossary(prefix), last.0, last.1);
      PutLookup(NewGlossary(prefix), last.0, last.1, k);
    }
  }

  // ---------------------------------------------------------------------
  // update_glossary, first loop: append entries for new pairs
  // ---------------------------------------------------------------------

  /** Both terms are non-empty and neither is a source term of the lookup
      map (the test is against the map's keys for both terms). */
  predicate Fresh(p: Pair, lookup: map<string, string>)
  {
    p.0 != "" && p.0 !in lookup && p.1 != "" && p.1 !in lookup
  }

  /** `{source_lang: s, target_lang: t}`; when the two codes are equal the
      later key wins, as in a Python dict literal. */
  function NewItem(p: Pair, src: string, tgt: string): (e: Entry)
    ensures src in e && tgt in e && e[tgt] == p.1
    ensures src != tgt ==> e[src] == p.0
  {
    map[src := p.0][tgt := p.1]
  }

  /** The pairs the first loop acts on, in the dict's order. */
  function FreshPairs(nd: seq<Pair>, lookup: map<string, string>): seq<Pair>
  {
    if |nd| == 0 then []
    else (if Fresh(nd[0], lookup) then [nd[0]] else []) + FreshPairs(nd[1..], lookup)
  }

  /** A pair is acted on exactly when it is in the dict and fresh. */
  lemma {:induction false} FreshPairsExact(nd: seq<Pair>, lookup: map<string, string>, p: Pair)
    ensures p in FreshPairs(nd, lookup) <==> p in nd && Fresh(p, lookup)
    decreases |nd|
  {
    if |nd| > 0 {
      FreshPairsExact(nd[1..], lookup, p);
      assert nd == [nd[0]] + nd[1..];
    }
  }

  /** The first loop over the dict's pairs: each fresh pair appends its new
      entry, in order, and adds 2 to the count. The lookup map is not
      updated inside the loop, so two pairs sharing a term are both
      appended. */
  function AppendFresh(entries: seq<Entry>, nd: seq<Pair>, lookup: map<string, string>, src: string, tgt: string): (r: (seq<Entry>, nat))
    ensures |r.0| >= |entries| && r.0[..|entries|] == entries
    ensures r.1 == 2 * (|r.0| - |entries|)
    ensures forall j :: |entries| <= j < |r.0| ==> src in r.0[j] && tgt in r.0[j]
  {
    var picked := FreshPairs(nd, lookup);
    (entries + seq(|picked|, j requires 0 <= j < |picked| => NewItem(picked[j], src, tgt)), 2 * |picked|)
  }

  /** Each appended entry is the new item of a fresh pair of the dict. */
  lemma AppendFreshFrom(entries: seq<Entry>, nd: seq<Pair>, lookup: map<string, string>, src: string, tgt: string, j: nat)
    requires |entries| <= j < |AppendFresh(entries, nd, lookup, src, tgt).0|
    ensures exists i :: 0 <= i < |nd| && Fresh(nd[i], lookup)
                        && AppendFresh(entries, nd, lookup, src, tgt).0[j] == NewItem(nd[i], src, tgt)
  {
    var picked := FreshPairs(nd, lookup);
    var p := picked[j - |entries|];
    FreshPairsExact(nd, lookup, p);
    var i :| 0 <= i < |nd| && nd[i] == p;
    assert AppendFresh(entries, nd, lookup, src, tgt).0[j] == NewItem(nd[i], src, tgt);
  }

  /** Every fresh pair of the dict has its new item appended. */
  lemma AppendFreshAll(entries: seq<Entry>, nd: seq<Pair>, lookup: map<string, string>, src: string, tgt: string, i: nat)
    requires i < |nd| && Fresh(nd[i], lookup)
    ensures exists j :: |entries| <= j < |AppendFresh(entries, nd, lookup, src, tgt).0|
                        && AppendFresh(entries, nd, lookup, src, tgt).0[j] == NewItem(nd[i], src, tgt)
  {
    var picked := FreshPairs(nd, lookup);
    FreshPairsExact(nd, lookup, nd[i]);
    var k :| 0 <= k < |picked| && picked[k] == nd[i];
    assert AppendFresh(entries, nd, lookup, src, tgt).0[|entries| + k] == NewItem(nd[i], src, tgt);
  }

  // ---------------------------------------------------------------------
  // update_glossary, second loop: complete entries in place
  // ---------------------------------------------------------------------

  /** `e2` keeps every key of `e` with its value. */
  predicate Extends(e2: Entry, e: Entry)
  {
    forall k :: k in e ==> k in e2 && e2[k] == e[k]
  }

  /** The only keys `e2` has beyond `e` are the two language codes. */
  predicate AddsOnly(e2: Entry, e: Entry, src: string, tgt: string)
  {
    forall k :: k in e2 && k !in e ==> k == src || k == tgt
  }

  /** One pair against one entry: a source term among the entry's terms
      supplies a missing target, otherwise a target term among them
      supplies a missing source. */
  function FillStep(e: Entry, p: Pair, src: string, tgt: string): (r: (Entry, nat))
    ensures Extends(r.0, e) && AddsOnly(r.0, e, src, tgt)
    ensures r.1 == 0 ==> r.0 == e
    ensures r.1 == 1 ==> exists k :: k !in e && k in r.0
    ensures r.1 <= 1
  {
    if p.0 != "" && p.0 in e.Values && tgt !in e then (e[tgt := p.1], 1)
    else if p.1 != "" && p.1 in e.Values && src !in e then (e[src := p.0], 1)
    else (e, 0)
  }

  /** The inner loop: every pair of the dict, in order, against one entry
      that changes as it goes. */
  function FillEntry(e: Entry, nd: seq<Pair>, src: string, tgt: string): (r: (Entry, nat))
    decreases |nd|
  {
    if |nd| == 0 then (e, 0)
    else
      var step := FillStep(e, nd[0], src, tgt);
      var rest := FillEntry(step.0, nd[1..], src, tgt);
      (rest.0, step.1 + rest.1)
  }

  /** Filling never removes or overwrites a key, adds only the two
      language codes, and counts something exactly when it changes the
      entry. */
  lemma {:induction false} FillEntrySpec(e: Entry, nd: seq<Pair>, src: string, tgt: string)
    ensures Extends(FillEntry(e, nd, src, tgt).0, e)
    ensures AddsOnly(FillEntry(e, nd, src, tgt).0, e, src, tgt)
    ensures FillEntry(e, nd, src, tgt).1 == 0 <==> FillEntry(e, nd, src, tgt).0 == e
    decreases |nd|
  {
    if |nd| > 0 {
      var step := FillStep(e, nd[0], src, tgt);
      FillEntrySpec(step.0, nd[1..], src, tgt);
    }
  }

  /** An entry that already has both languages is left alone. */
  lemma {:induction false} FillEntryComplete(e: Entry, nd: seq<Pair>, src: string, tgt: string)
    requires src in e && tgt in e
    ensures FillEntry(e, nd, src, tgt) == (e, 0)
    decreases |nd|
  {
    if |nd| > 0 {
      FillEntryComplete(e, nd[1..], src, tgt);
    }
  }

  /** A term among an entry's terms stays among them as the entry grows. */
  lemma ValuesKept(e: Entry, e2: Entry, v: string)
    requires Extends(e2, e) && v in e.Values
    ensures v in e2.Values
  {
    var k :| k in e && e[k] == v;
    assert k in e2 && e2[k] == v;
  }

  /** An entry holding the source term of some pair ends up with a target
      term. */
  lemma {:induction false} FillEntryAddsTarget(e: Entry, nd: seq<Pair>, src: string, tgt: string, i: nat)
    requires i < |nd| && nd[i].0 != "" && nd[i].0 in e.Values
    ensures tgt in FillEntry(e, nd, src, tgt).0
    decreases |nd|
  {
    var step := FillStep(e, nd[0], src, tgt);
    FillEntrySpec(step.0, nd[1..], src, tgt);
    if i > 0 {
      ValuesKept(e, step.0, nd[i].0);
      assert nd[1..][i - 1] == nd[i];
      FillEntryAddsTarget(step.0, nd[1..], src, tgt, i - 1);
    }
  }

  /** An entry that has a target term and holds the translated term of some
      pair ends up with a source term. */
  lemma {:induction false} FillEntryAddsSource(e: Entry, nd: seq<Pair>, src: string, tgt: string, i: nat)
    requires tgt in e
    requires i < |nd| && nd[i].1 != "" && nd[i].1 in e.Values
    ensures src in FillEntry(e, nd, src, tgt).0
    decreases |nd|
  {
    var step := FillStep(e, nd[0], src, tgt);
    FillEntrySpec(step.0, nd[1..], src, tgt);
    if i > 0 {
      ValuesKept(e, step.0, nd[i].1);
      assert nd[1..][i - 1] == nd[i];
      FillEntryAddsSource(step.0, nd[1..], src, tgt, i - 1);
    }
  }

  /** The outer loop: every entry, appended ones included, filled in turn;
      the counts add up. */
  function FillAll(entries: seq<Entry>, nd: seq<Pair>, src: string, tgt: string): (r: (seq<Entry>, nat))
    ensures |r.0| == |entries|
    decreases |entries|
  {
    if |entries| == 0 then ([], 0)
    else
      var first := FillEntry(entries[0], nd, src, tgt);
      var rest := FillAll(entries[1..], nd, src, tgt);
      ([first.0] + rest.0, first.1 + rest.1)
  }

  /** Each entry is filled on its own: it keeps its keys and values and
      gains only language codes. */
  lemma FillAllExtends(entries: seq<Entry>, nd: seq<Pair>, src: string, tgt: string, i: nat)
    requires i < |entries|
    ensures Extends(FillAll(entries, nd, src, tgt).0[i], entries[i])
    ensures AddsOnly(FillAll(entries, nd, src, tgt).0[i], entries[i], src, tgt)
  {
    FillAllAt(entries, nd, src, tgt, i);
    FillEntrySpec(entries[i], nd, src, tgt);
  }

  /** The total count is zero exactly when no entry changed. */
  lemma {:induction false} FillAllCounts(entries: seq<Entry>, nd: seq<Pair>, src: string, tgt: string)
    ensures FillAll(entries, nd, src, tgt).1 == 0 <==> FillAll(entries, nd, src, tgt).0 == entries
    decreases |entries|
  {
    if |entries| > 0 {
      var first := FillEntry(entries[0], nd, src, tgt);
      var rest := FillAll(entries[1..], nd, src, tgt);
      FillEntrySpec(entries[0], nd, src, tgt);
      FillAllCounts(entries[1..], nd, src, tgt);
      ConsEqual(first.0, rest.0, entries);
    }
  }

  /** `[x] + xs` is `ys` exactly when `x` and `xs` are its head and tail. */
  lemma ConsEqual(x: Entry, xs: seq<Entry>, ys: seq<Entry>)
    requires |ys| > 0
    ensures [x] + xs == ys <==> x == ys[0] && xs == ys[1..]
  {
    if [x] + xs == ys {
      assert ([x] + xs)[1..] == xs;
    }
    if x == ys[0] && xs == ys[1..] {
      assert ys == [ys[0]] + ys[1..];
    }
  }

  /** Filling only ever touches the entry at its own position: an entry
      with both languages comes through unchanged. */
  lemma FillAllKeepsComplete(entries: seq<Entry>, nd: seq<Pair>, src: string, tgt: string, i: nat)
    requires i < |entries| && src in entries[i] && tgt in entries[i]
    ensures FillAll(entries, nd, src, tgt).0[i] == entries[i]
  {
    FillAllAt(entries, nd, src, tgt, i);
    FillEntryComplete(entries[i], nd, src, tgt);
  }

  lemma {:induction false} FillAllAt(entries: seq<Entry>, nd: seq<Pair>, src: string, tgt: string, i: nat)
    requires i < |entries|
    ensures FillAll(entries, nd, src, tgt).0[i] == FillEntry(entries[i], nd, src, tgt).0
    decreases i
  {
    if i > 0 {
      FillAllAt(entries[1..], nd, src, tgt, i - 1);
    }
  }

  // ---------------------------------------------------------------------
  // update_glossary
  // ---------------------------------------------------------------------

  /** The merged glossary, the number of terms added, and whether the file
      is rewritten. */
  datatype Updated = Updated(entries: seq<Entry>, added: nat, written: bool)

  /** `update_glossary(data_dict, existing, lookup, ...)`; `pairs` are the
      model's (source_term, translated_term) items in order. */
  function UpdateGlossary(pairs: seq<Pair>, entries: seq<Entry>, lookup: map<string, string>, src: string, tgt: string): (r: Updated)
    ensures |r.entries| >= |entries|
    ensures r.written <==> r.added > 0
  {
    var nd := NewGlossary(pairs);
    var appended := AppendFresh(entries, nd, lookup, src, tgt);
    var filled := FillAll(appended.0, nd, src, tgt);
    var count := appended.1 + filled.1;
    Updated(filled.0, count, count > 0)
  }

  /** The existing entries keep their order and every key and value they
      had, gaining at most the two language codes; the file is written
      exactly when the glossary changed. */
  lemma UpdateGlossarySpec(pairs: seq<Pair>, entries: seq<Entry>, lookup: map<string, string>, src: string, tgt: string)
    ensures var r := UpdateGlossary(pairs, entries, lookup, src, tgt);
            forall i :: 0 <= i < |entries| ==>
              Extends(r.entries[i], entries[i]) && AddsOnly(r.entries[i], entries[i], src, tgt)
    ensures var r := UpdateGlossary(pairs, entries, lookup, src, tgt);
            r.written <==> r.entries != entries
  {
    var nd := NewGlossary(pairs);
    var appended := AppendFresh(entries, nd, lookup, src, tgt);
    FillAllCounts(appended.0, nd, src, tgt);
    forall i | 0 <= i < |entries|
      ensures Extends(FillAll(appended.0, nd, src, tgt).0[i], entries[i])
      ensures AddsOnly(FillAll(appended.0, nd, src, tgt).0[i], entries[i], src, tgt)
    {
      assert appended.0[i] == entries[i];
      FillAllExtends(appended.0, nd, src, tgt, i);
    }
  }

  /** The appended entries are the new items of the fresh pairs of the
      deduplicated dict, each with both languages and left as built by the
      second loop. */
  lemma UpdateGlossaryAppends(pairs: seq<Pair>, entries: seq<Entry>, lookup: map<string, string>, src: string, tgt: string, j: nat)
    requires |entries| <= j < |UpdateGlossary(pairs, entries, lookup, src, tgt).entries|
    ensures exists i :: 0 <= i < |NewGlossary(pairs)| && Fresh(NewGlossary(pairs)[i], lookup)
                        && UpdateGlossary(pairs, entries, lookup, src, tgt).entries[j] == NewItem(NewGlossary(pairs)[i], src, tgt)
  {
    var nd := NewGlossary(pairs);
    var appended := AppendFresh(entries, nd, lookup, src, tgt);
    var r := UpdateGlossary(pairs, entries, lookup, src, tgt);
    assert r.entries == FillAll(appended.0, nd, src, tgt).0;
    AppendFreshFrom(entries, nd, lookup, src, tgt, j);
    FillAllKeepsComplete(appended.0, nd, src, tgt, j);
    var i :| 0 <= i < |nd| && Fresh(nd[i], lookup) && appended.0[j] == NewItem(nd[i], src, tgt);
    assert r.entries[j] == NewItem(nd[i], src, tgt);
  }
}
