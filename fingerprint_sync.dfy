/**
 * The ID drift fingerprint (fingerprint_sync.py). Each compiled output that
 * exists gets an entry holding the hash of its text and the sorted,
 * duplicate-free list of the bracketed IDs in it. A run compares the IDs of
 * every current entry with those of the previous snapshot, reports the IDs
 * that have disappeared, and then overwrites the snapshot with the new
 * fingerprint.
 *
 * The disk is a map from root-relative path to text; SHA-256 of the UTF-8 text
 * is the parameter `hash`.
 */
module FingerprintSync {
  import opened Wrappers
  import opened Text
  import opened IdPattern
  import Ordering

  /** The tracked outputs, in the order of the source's OUTPUTS dictionary: (key, path). */
  const Outputs: seq<(string, string)> := [("runtime_prompt", "Runtime_Prompt.md"), ("srs", "docs/out/SRS.md")]

  /** One fingerprint entry: `{"file_hash": ..., "ids": ...}`. */
  datatype FpEntry = FpEntry(fileHash: string, ids: seq<string>)

  type Fingerprint = map<string, FpEntry>

  /** The entry of one output text. */
  function EntryOf(hash: string -> string, txt: string): (e: FpEntry)
    ensures e.fileHash == hash(txt)
    ensures Ordering.SortedListOf(Ordering.CodePoint, e.ids, FoundIds(txt))
  {
    FpEntry(hash(txt), ScanIds(txt))
  }

  /** No key is listed twice. */
  predicate DistinctKeys(outs: seq<(string, string)>) {
    forall i, j :: 0 <= i < j < |outs| ==> outs[i].0 != outs[j].0
  }

  /** The fingerprint of the outputs `outs` that exist on the disk. */
  function FingerprintOf(disk: map<string, string>, hash: string -> string, outs: seq<(string, string)>): Fingerprint {
    if outs == [] then map[]
    else
      var (k, p) := outs[|outs| - 1];
      var fp := FingerprintOf(disk, hash, outs[..|outs| - 1]);
      if p in disk then fp[k := EntryOf(hash, disk[p])] else fp
  }

  /** The keys of the fingerprint are the keys of the outputs that exist. */
  lemma {:induction false} FingerprintOfKeys(disk: map<string, string>, hash: string -> string, outs: seq<(string, string)>, k: string)
    ensures k in FingerprintOf(disk, hash, outs) <==> exists i :: 0 <= i < |outs| && outs[i].0 == k && outs[i].1 in disk
  {
    if outs != [] {
      var init := outs[..|outs| - 1];
      FingerprintOfKeys(disk, hash, init, k);
      if exists i :: 0 <= i < |init| && init[i].0 == k && init[i].1 in disk {
        var i :| 0 <= i < |init| && init[i].0 == k && init[i].1 in disk;
        assert outs[i] == init[i];
      }
      if exists i :: 0 <= i < |outs| && outs[i].0 == k && outs[i].1 in disk {
        var i :| 0 <= i < |outs| && outs[i].0 == k && outs[i].1 in disk;
        if i < |init| { assert init[i] == outs[i]; }
      }
    }
  }

  /** With distinct keys, an existing output's entry is the entry of its own text. */
  lemma {:induction false} FingerprintOfEntry(disk: map<string, string>, hash: string -> string, outs: seq<(string, string)>, i: nat)
    requires DistinctKeys(outs) && i < |outs| && outs[i].1 in disk
    ensures outs[i].0 in FingerprintOf(disk, hash, outs)
    ensures FingerprintOf(disk, hash, outs)[outs[i].0] == EntryOf(hash, disk[outs[i].1])
  {
    var init := outs[..|outs| - 1];
    if i < |init| {
      assert init[i] == outs[i];
      assert DistinctKeys(init);
      FingerprintOfEntry(disk, hash, init, i);
      assert outs[|outs| - 1].0 != outs[i].0;
    }
  }

  /** `make_fp`: one entry per output that exists. */
  method MakeFp(disk: map<string, string>, hash: string -> string) returns (fp: Fingerprint)
    ensures fp == FingerprintOf(disk, hash, Outputs)
  {
    fp := map[];
    for i := 0 to |Outputs|
      invariant fp == FingerprintOf(disk, hash, Outputs[..i])
    {
      var (k, p) := Outputs[i];
      assert Outputs[..i + 1][..i] == Outputs[..i];
      if p in disk {
        fp := fp[k := EntryOf(hash, disk[p])];
      }
    }
    assert Outputs[..|Outputs|] == Outputs;
  }

  /** An output has an entry exactly when it exists, and the entry is that of its own text. */
  lemma MakeFpEntries(disk: map<string, string>, hash: string -> string, i: nat)
    requires i < |Outputs|
    ensures Outputs[i].0 in FingerprintOf(disk, hash, Outputs) <==> Outputs[i].1 in disk
    ensures Outputs[i].1 in disk ==> FingerprintOf(disk, hash, Outputs)[Outputs[i].0] == EntryOf(hash, disk[Outputs[i].1])
  {
    FingerprintOfKeys(disk, hash, Outputs, Outputs[i].0);
    if Outputs[i].1 in disk {
      FingerprintOfEntry(disk, hash, Outputs, i);
    }
  }

  /** The elements of xs that are not in ys, in order. */
  function Without(xs: seq<string>, ys: seq<string>): (r: seq<string>)
    ensures forall x :: x in r <==> x in xs && x !in ys
  {
    if xs == [] then []
    else if xs[0] in ys then Without(xs[1..], ys)
    else [xs[0]] + Without(xs[1..], ys)
  }

  /** `sorted(set(old) - set(new))`. */
  function Dropped(oldIds: seq<string>, newIds: seq<string>): (r: seq<string>)
    ensures Ordering.SortedListOf(Ordering.CodePoint, r, set x | x in oldIds && x !in newIds)
  {
    Ordering.SortUnique(Ordering.CodePoint, Without(oldIds, newIds))
  }

  /** Nothing is dropped exactly when every old ID is still present. */
  lemma DroppedEmptyIff(oldIds: seq<string>, newIds: seq<string>)
    ensures Dropped(oldIds, newIds) == [] <==> forall x :: x in oldIds ==> x in newIds
  {
    var r := Dropped(oldIds, newIds);
    if r != [] {
      assert r[0] in r;
    }
  }

  /** An ID that is present now is never reported, so additions are never flagged. */
  lemma AdditionsNeverFlagged(oldIds: seq<string>, newIds: seq<string>, x: string)
    requires x in newIds
    ensures x !in Dropped(oldIds, newIds)
  {
  }

  /** The IDs of the previous snapshot's record for a key, or none when there is no record. */
  function OldIds(prev: Fingerprint, k: string): seq<string> {
    if k in prev then prev[k].ids else []
  }

  /** An output without a previous record drops nothing. */
  lemma NoRecordDropsNothing(prev: Fingerprint, k: string, newIds: seq<string>)
    requires k !in prev
    ensures Dropped(OldIds(prev, k), newIds) == []
  {
    DroppedEmptyIff(OldIds(prev, k), newIds);
  }

  /** A reported drop: the output's key and the IDs gone since the last run. */
  datatype Problem = Problem(key: string, dropped: seq<string>)

  /** `f"{k}: dropped IDs since last run -> {', '.join(dropped)}"`. */
  function Message(p: Problem): string {
    p.key + ": dropped IDs since last run -> " + Join(p.dropped, ", ")
  }

  /** The problems of the current entries, in the order of the outputs. */
  function Problems(prev: Fingerprint, fp: Fingerprint, outs: seq<(string, string)>): seq<Problem> {
    if outs == [] then []
    else
      var k := outs[|outs| - 1].0;
      var rest := Problems(prev, fp, outs[..|outs| - 1]);
      if k in fp && Dropped(OldIds(prev, k), fp[k].ids) != [] then rest + [Problem(k, Dropped(OldIds(prev, k), fp[k].ids))]
      else rest
  }

  /** Some output has key k. */
  predicate HasKey(outs: seq<(string, string)>, k: string) {
    exists i :: 0 <= i < |outs| && outs[i].0 == k
  }

  lemma HasKeySnoc(outs: seq<(string, string)>, k: string)
    requires outs != []
    ensures HasKey(outs, k) <==> HasKey(outs[..|outs| - 1], k) || outs[|outs| - 1].0 == k
  {
    var init := outs[..|outs| - 1];
    if HasKey(init, k) {
      var i :| 0 <= i < |init| && init[i].0 == k;
      assert outs[i] == init[i];
    }
    if HasKey(outs, k) {
      var i :| 0 <= i < |outs| && outs[i].0 == k;
      if i < |init| { assert init[i] == outs[i]; }
    }
  }

  /**
   * A problem is reported exactly for an output key that has a current entry
   * and lost IDs, and it carries those IDs; outputs absent now are not compared.
   */
  lemma {:induction false} ProblemsMembers(prev: Fingerprint, fp: Fingerprint, outs: seq<(string, string)>, p: Problem)
    ensures p in Problems(prev, fp, outs) <==>
      && HasKey(outs, p.key)
      && p.key in fp
      && p.dropped == Dropped(OldIds(prev, p.key), fp[p.key].ids)
      && p.dropped != []
  {
    if outs != [] {
      var init := outs[..|outs| - 1];
      ProblemsMembers(prev, fp, init, p);
      HasKeySnoc(outs, p.key);
    }
  }

  /** Comparing a fingerprint with itself reports nothing. */
  lemma {:induction false} SelfComparisonPasses(fp: Fingerprint, outs: seq<(string, string)>)
    ensures Problems(fp, fp, outs) == []
  {
    if outs != [] {
      SelfComparisonPasses(fp, outs[..|outs| - 1]);
      var k := outs[|outs| - 1].0;
      if k in fp {
        DroppedEmptyIff(fp[k].ids, fp[k].ids);
      }
    }
  }

  /** The fingerprint check passes (exits 0) exactly when no current entry lost an ID. */
  lemma {:induction false} ProblemsEmptyIff(prev: Fingerprint, fp: Fingerprint, outs: seq<(string, string)>)
    ensures ExitCode(Problems(prev, fp, outs)) == 0 <==> Problems(prev, fp, outs) == []
    ensures Problems(prev, fp, outs) == [] <==>
      forall i :: 0 <= i < |outs| && outs[i].0 in fp ==> forall x :: x in OldIds(prev, outs[i].0) ==> x in fp[outs[i].0].ids
  {
    if outs != [] {
      var init := outs[..|outs| - 1];
      ProblemsEmptyIff(prev, fp, init);
      var k := outs[|outs| - 1].0;
      if k in fp {
        DroppedEmptyIff(OldIds(prev, k), fp[k].ids);
      }
      forall i | 0 <= i < |init| ensures init[i] == outs[i] {
      }
    }
  }

  /** `sys.exit(1)` when there are problems, 0 otherwise. */
  function ExitCode(problems: seq<Problem>): (code: int)
    ensures code == 0 || code == 1
    ensures code == 0 <==> problems == []
  {
    if problems == [] then 0 else 1
  }

  /**
   * The snapshot file `sync_fingerprint.json`: None when it is missing or does
   * not parse, which the check treats as an empty previous fingerprint.
   */
  class SnapshotStore {
    var snapshot: Option<Fingerprint>

    constructor (stored: Option<Fingerprint>)
      ensures snapshot == stored
    {
      snapshot := stored;
    }

    /** `main`: fingerprint the outputs, compare with the snapshot, overwrite it, exit. */
    method Run(disk: map<string, string>, hash: string -> string) returns (problems: seq<Problem>, code: int)
      modifies this
      ensures snapshot == Some(FingerprintOf(disk, hash, Outputs))
      ensures problems == Problems(old(snapshot).GetOr(map[]), FingerprintOf(disk, hash, Outputs), Outputs)
      ensures code == ExitCode(problems)
    {
      var fp := MakeFp(disk, hash);
      var prev := snapshot.GetOr(map[]);
      problems := [];
      for i := 0 to |Outputs|
        invariant problems == Problems(prev, fp, Outputs[..i])
      {
        var k := Outputs[i].0;
        assert Outputs[..i + 1][..i] == Outputs[..i];
        if k in fp {
          var dropped := Dropped(OldIds(prev, k), fp[k].ids);
          if dropped != [] {
            problems := problems + [Problem(k, dropped)];
          }
        }
      }
      assert Outputs[..|Outputs|] == Outputs;
      snapshot := Some(fp);
      code := ExitCode(problems);
    }
  }

  /** The snapshot a run leaves makes an immediate re-run on the same disk pass. */
  lemma RerunPasses(disk: map<string, string>, hash: string -> string)
    ensures Problems(Some(FingerprintOf(disk, hash, Outputs)).GetOr(map[]), FingerprintOf(disk, hash, Outputs), Outputs) == []
  {
    SelfComparisonPasses(FingerprintOf(disk, hash, Outputs), Outputs);
  }
}
