/**
 * The glossary of a book: an immutable record holding the file it was read
 * from and an insertion-ordered map from entry id to entry. Every operation
 * returns a new value.
 *
 * `GlossaryEntry.nameToID` (the slug of a name) is not part of this model:
 * the operations that need it take it as the parameter `nameToID`, an
 * arbitrary deterministic function.
 */
module Glossaries {
  import opened Wrappers
  import opened OrderedMaps

  type Id = string

  /** A file reference; only its identity matters here. */
  datatype File = File(path: string)

  /** The file of a glossary that was never given one (`new File()`). */
  const DefaultFile: File := File("")

  datatype GlossaryEntry = GlossaryEntry(id: Id, name: string, description: string)

  /** What `createFromEntries` accepts: an entry, or a plain `{name, description}` record. */
  datatype EntryInput =
    | Instance(entry: GlossaryEntry)
    | Plain(name: string, description: string)

  /** `getFile()` and `getEntries()` are the fields `file` and `entries`. */
  datatype Glossary = Glossary(file: File, entries: OrderedMap<Id, GlossaryEntry>)

  /** The record defaults: the default file and no entries. */
  const Empty: Glossary := Glossary(DefaultFile, [])

  /** Every entry is stored under its own id. */
  predicate Valid(g: Glossary) {
    forall i :: 0 <= i < |g.entries| ==> g.entries[i].0 == g.entries[i].1.id
  }

  /** An entry whose id is the id of its name, as `GlossaryEntry` derives it. */
  predicate WellFormedEntry(nameToID: string -> Id, e: GlossaryEntry) {
    e.id == nameToID(e.name)
  }

  /** Every stored entry has the id of its name. */
  predicate WellFormed(nameToID: string -> Id, g: Glossary) {
    forall i :: 0 <= i < |g.entries| ==> WellFormedEntry(nameToID, g.entries[i].1)
  }

  /** `new GlossaryEntry({name, description})`: keeps the name and description, derives the id. */
  function NewEntry(nameToID: string -> Id, name: string, description: string): (e: GlossaryEntry)
    ensures e.name == name && e.description == description
    ensures WellFormedEntry(nameToID, e)
  {
    GlossaryEntry(nameToID(name), name, description)
  }

  /** `setFile(file)`: a glossary linked to `file`, with the same entries. */
  function SetFile(g: Glossary, file: File): (r: Glossary)
    ensures r.file == file
    ensures r.entries == g.entries
    ensures Valid(g) ==> Valid(r)
  {
    g.(file := file)
  }

  /** `getEntry(name)`: the entry stored under the id of `name`, if any. */
  function GetEntry(g: Glossary, nameToID: string -> Id, name: string): (r: Option<GlossaryEntry>)
    ensures r.Some? <==> HasKey(g.entries, nameToID(name))
    ensures forall i :: 0 <= i < |g.entries| && g.entries[i].0 == nameToID(name) ==>
      r == Some(g.entries[i].1)
    ensures Valid(g) && r.Some? ==> r.value.id == nameToID(name)
    ensures Valid(g) && WellFormed(nameToID, g) && r.Some? ==> nameToID(r.value.name) == nameToID(name)
  {
    Get(g.entries, nameToID(name))
  }

  /** `addEntry(entry)`: store `entry` under its id, replacing in place or appending. */
  function AddEntry(g: Glossary, entry: GlossaryEntry): (r: Glossary)
    ensures r.file == g.file
    ensures Get(r.entries, entry.id) == Some(entry)
    ensures forall id :: id != entry.id ==> Get(r.entries, id) == Get(g.entries, id)
    ensures HasKey(g.entries, entry.id) ==> Keys(r.entries) == Keys(g.entries)
    ensures !HasKey(g.entries, entry.id) ==> Keys(r.entries) == Keys(g.entries) + [entry.id]
    ensures Valid(g) ==> Valid(r)
  {
    g.(entries := Set(g.entries, entry.id, entry))
  }

  /** `addEntryByName(name, description)`: add the entry built from `name` and `description`. */
  function AddEntryByName(g: Glossary, nameToID: string -> Id, name: string, description: string): (r: Glossary)
    ensures r.file == g.file
    ensures GetEntry(r, nameToID, name) == Some(GlossaryEntry(nameToID(name), name, description))
    ensures forall n :: nameToID(n) != nameToID(name) ==> GetEntry(r, nameToID, n) == GetEntry(g, nameToID, n)
    ensures Valid(g) ==> Valid(r)
    ensures WellFormed(nameToID, g) ==> WellFormed(nameToID, r)
  {
    var e := NewEntry(nameToID, name, description);
    AddEntryWellFormed(g, nameToID, e);
    AddEntry(g, e)
  }

  /** An input whose entry, if it is already one, has the id of its name. */
  predicate WellFormedInput(nameToID: string -> Id, x: EntryInput) {
    x.Instance? ==> WellFormedEntry(nameToID, x.entry)
  }

  /**
   * An input turned into an entry: an entry is kept as it is, a plain record
   * is built like `addEntryByName` builds one.
   */
  function ToEntry(nameToID: string -> Id, x: EntryInput): (e: GlossaryEntry)
    ensures x.Instance? ==> e == x.entry
    ensures x.Plain? ==> e.name == x.name && e.description == x.description
    ensures WellFormedInput(nameToID, x) ==> WellFormedEntry(nameToID, e)
  {
    match x
    case Instance(e) => e
    case Plain(name, description) => NewEntry(nameToID, name, description)
  }

  /** The `[entry.id, entry]` pairs of the inputs. */
  function KeyedEntries(nameToID: string -> Id, xs: seq<EntryInput>): (ps: seq<(Id, GlossaryEntry)>)
    ensures |ps| == |xs|
    ensures forall i :: 0 <= i < |ps| ==> ps[i].0 == ps[i].1.id
    ensures forall i :: 0 <= i < |xs| ==> ps[i].1 == ToEntry(nameToID, xs[i])
  {
    seq(|xs|, i requires 0 <= i < |xs| => (ToEntry(nameToID, xs[i]).id, ToEntry(nameToID, xs[i])))
  }

  /** `Glossary.createFromEntries(entries)`: the default file and `OrderedMap` of the keyed entries. */
  function CreateFromEntries(nameToID: string -> Id, xs: seq<EntryInput>): (r: Glossary)
    ensures r.file == DefaultFile
    ensures Valid(r)
    ensures (forall i :: 0 <= i < |xs| ==> WellFormedInput(nameToID, xs[i])) ==> WellFormed(nameToID, r)
  {
    var ps := KeyedEntries(nameToID, xs);
    var r := Glossary(DefaultFile, FromPairs(ps));
    assert forall i :: 0 <= i < |r.entries| ==> r.entries[i] in ps;
    r
  }

  /** Adding the entries one after the other, starting from `g`. */
  function AddEntries(g: Glossary, es: seq<GlossaryEntry>): Glossary
    decreases |es|
  {
    if es == [] then g else AddEntries(AddEntry(g, es[0]), es[1..])
  }

  /** `addEntry` of an entry with the id of its name keeps every entry's id that of its name. */
  lemma AddEntryWellFormed(g: Glossary, nameToID: string -> Id, e: GlossaryEntry)
    requires WellFormedEntry(nameToID, e)
    ensures WellFormed(nameToID, g) ==> WellFormed(nameToID, AddEntry(g, e))
  {
    var r := AddEntry(g, e);
    if WellFormed(nameToID, g) {
      forall i | 0 <= i < |r.entries|
        ensures WellFormedEntry(nameToID, r.entries[i].1)
      {
        if r.entries[i] != (e.id, e) {
          var j :| 0 <= j < |g.entries| && g.entries[j] == r.entries[i];
        }
      }
    }
  }

  /** `setFile` keeps every entry's id that of its name. */
  lemma SetFileWellFormed(g: Glossary, nameToID: string -> Id, file: File)
    requires WellFormed(nameToID, g)
    ensures WellFormed(nameToID, SetFile(g, file))
  {
  }

  // ----- Properties -----

  /** The default glossary has no entry for any name. */
  lemma GetEntryOnEmpty(nameToID: string -> Id, name: string)
    ensures GetEntry(Empty, nameToID, name) == None
  {
  }

  /** After `addEntry(e)`, every name whose id is `e.id` finds `e`. */
  lemma AddEntryThenGetEntry(g: Glossary, nameToID: string -> Id, e: GlossaryEntry, name: string)
    requires nameToID(name) == e.id
    ensures GetEntry(AddEntry(g, e), nameToID, name) == Some(e)
  {
  }

  /** A new id is appended after all existing entries. */
  lemma AddEntryNewId(g: Glossary, e: GlossaryEntry)
    requires !HasKey(g.entries, e.id)
    ensures AddEntry(g, e).entries == g.entries + [(e.id, e)]
    ensures |AddEntry(g, e).entries| == |g.entries| + 1
  {
  }

  /** An existing id keeps its position; only its value changes. */
  lemma AddEntryExistingId(g: Glossary, e: GlossaryEntry, i: nat)
    requires i < |g.entries| && g.entries[i].0 == e.id
    ensures AddEntry(g, e).entries == g.entries[i := (e.id, e)]
    ensures |AddEntry(g, e).entries| == |g.entries|
  {
  }

  /**
   * Two names with the same id: the second `addEntryByName` replaces the
   * description but the entry stays where the first one put it.
   */
  lemma ReplaceByNameKeepsPosition(
    g: Glossary, nameToID: string -> Id, n1: string, d1: string, n2: string, d2: string)
    requires nameToID(n1) == nameToID(n2)
    ensures var g1 := AddEntryByName(g, nameToID, n1, d1);
            var g2 := AddEntryByName(g1, nameToID, n2, d2);
            GetEntry(g2, nameToID, n1) == Some(GlossaryEntry(nameToID(n1), n2, d2)) &&
            Keys(g2.entries) == Keys(g1.entries) &&
            FirstIndex(g2.entries, nameToID(n1)) == FirstIndex(g1.entries, nameToID(n1))
  {
  }

  /** The ids of `createFromEntries(xs)` are exactly the ids occurring in `xs`. */
  lemma CreateFromEntriesIds(nameToID: string -> Id, xs: seq<EntryInput>, id: Id)
    ensures HasKey(CreateFromEntries(nameToID, xs).entries, id) <==>
      exists i :: 0 <= i < |xs| && ToEntry(nameToID, xs[i]).id == id
  {
    var ps := KeyedEntries(nameToID, xs);
    FromPairsHasKey(ps, id);
    if HasKey(ps, id) {
      var i :| 0 <= i < |ps| && ps[i].0 == id;
      assert ToEntry(nameToID, xs[i]).id == id;
    }
    if exists i :: 0 <= i < |xs| && ToEntry(nameToID, xs[i]).id == id {
      var i :| 0 <= i < |xs| && ToEntry(nameToID, xs[i]).id == id;
      assert ps[i].0 == id;
    }
  }

  /** The ids of `createFromEntries(xs)` are ordered by their first occurrence in `xs`. */
  lemma CreateFromEntriesOrder(nameToID: string -> Id, xs: seq<EntryInput>)
    ensures OrderedByFirstOccurrence(CreateFromEntries(nameToID, xs).entries, KeyedEntries(nameToID, xs))
  {
    FromPairsOrder(KeyedEntries(nameToID, xs));
  }

  /** Each id of `createFromEntries(xs)` holds the last input with that id. */
  lemma CreateFromEntriesLastWins(nameToID: string -> Id, xs: seq<EntryInput>, i: nat)
    requires i < |xs|
    requires forall j :: i < j < |xs| ==> ToEntry(nameToID, xs[j]).id != ToEntry(nameToID, xs[i]).id
    ensures Get(CreateFromEntries(nameToID, xs).entries, ToEntry(nameToID, xs[i]).id) ==
      Some(ToEntry(nameToID, xs[i]))
  {
    FromPairsLastWins(KeyedEntries(nameToID, xs), i);
  }

  lemma {:induction false} AddEntriesAppend(g: Glossary, es: seq<GlossaryEntry>, e: GlossaryEntry)
    ensures AddEntries(g, es + [e]) == AddEntry(AddEntries(g, es), e)
    decreases |es|
  {
    if es == [] {
      assert es + [e] == [e];
    } else {
      assert (es + [e])[1..] == es[1..] + [e];
      AddEntriesAppend(AddEntry(g, es[0]), es[1..], e);
    }
  }

  /** `createFromEntries(xs)` equals adding the entries of `xs` one by one to the default glossary. */
  lemma {:induction false} CreateFromEntriesIsFold(nameToID: string -> Id, xs: seq<EntryInput>)
    ensures CreateFromEntries(nameToID, xs) ==
      AddEntries(Empty, seq(|xs|, i requires 0 <= i < |xs| => ToEntry(nameToID, xs[i])))
    decreases |xs|
  {
    var es := seq(|xs|, i requires 0 <= i < |xs| => ToEntry(nameToID, xs[i]));
    if xs != [] {
      var init := xs[..|xs| - 1];
      var esInit := seq(|init|, i requires 0 <= i < |init| => ToEntry(nameToID, init[i]));
      var e := ToEntry(nameToID, xs[|xs| - 1]);
      var ps := KeyedEntries(nameToID, xs);
      assert ps[..|ps| - 1] == KeyedEntries(nameToID, init);
      assert es == esInit + [e];
      CreateFromEntriesIsFold(nameToID, init);
      AddEntriesAppend(Empty, esInit, e);
    }
  }

  /** Two inputs whose names share an id make one entry, holding the later description. */
  lemma CollidingNamesMerge(nameToID: string -> Id, n1: string, d1: string, n2: string, d2: string)
    requires nameToID(n1) == nameToID(n2)
    ensures var g := CreateFromEntries(nameToID, [Plain(n1, d1), Plain(n2, d2)]);
            |g.entries| == 1 && g.entries[0].1 == GlossaryEntry(nameToID(n2), n2, d2)
  {
    var ps := KeyedEntries(nameToID, [Plain(n1, d1), Plain(n2, d2)]);
    assert ps[..1] == [ps[0]];
    assert [ps[0]][..0] == [];
    var one := FromPairs([ps[0]]);
    assert one == [ps[0]];
    assert Find(one, ps[1].0) == Some(0);
  }
}
