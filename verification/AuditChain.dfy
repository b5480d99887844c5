/** The audit log's hash chain. The hash over an entry's fields is a parameter. */
module AuditChain {
  import opened Bytes

  /** What the hash covers: position, link, and everything else in canonical form. */
  datatype Fields = Fields(sequence: nat, previousHash: string, content: string)

  datatype Entry = Entry(fields: Fields, entryHash: string)

  type Hash = Fields -> string

  datatype Fault = SequenceMismatch(at: nat) | PreviousHashMismatch(at: nat) | EntryHashMismatch(at: nat)

  const GENESIS: string := "0000000000000000000000000000000000000000000000000000000000000000"

  /** The hash the next entry must link to. */
  function Tip(entries: seq<Entry>): string {
    if entries == [] then GENESIS else entries[|entries| - 1].entryHash
  }

  function FaultAt(entries: seq<Entry>, i: nat, hash: Hash): Option<Fault>
    requires i < |entries|
  {
    var e := entries[i];
    if e.fields.sequence != i then Some(SequenceMismatch(i))
    else if e.fields.previousHash != Tip(entries[..i]) then Some(PreviousHashMismatch(i))
    else if e.entryHash != hash(e.fields) then Some(EntryHashMismatch(i))
    else None
  }

  predicate Accepted(entries: seq<Entry>, hash: Hash) {
    forall i :: 0 <= i < |entries| ==> FaultAt(entries, i, hash).None?
  }

  /** Accepts exactly the chains without a fault, and otherwise names the first one. */
  method VerifyChain(entries: seq<Entry>, hash: Hash) returns (fault: Option<Fault>)
    ensures fault.None? <==> Accepted(entries, hash)
    ensures fault.Some? ==>
      && fault.value.at < |entries| && FaultAt(entries, fault.value.at, hash) == fault
      && Accepted(entries[..fault.value.at], hash)
  {
    var expectedPrevious := GENESIS;
    var expectedSequence := 0;
    for i := 0 to |entries|
      invariant expectedSequence == i && expectedPrevious == Tip(entries[..i])
      invariant forall k :: 0 <= k < i ==> FaultAt(entries, k, hash).None?
    {
      var entry := entries[i];
      PrefixFaults(entries, i, hash);
      ghost var faultHere := FaultAt(entries, i, hash);
      if entry.fields.sequence != expectedSequence {
        return Some(SequenceMismatch(i));
      }
      if entry.fields.previousHash != expectedPrevious {
        return Some(PreviousHashMismatch(i));
      }
      if entry.entryHash != hash(entry.fields) {
        return Some(EntryHashMismatch(i));
      }
      expectedPrevious := entry.entryHash;
      expectedSequence := expectedSequence + 1;
    }
    return None;
  }

  /** A prefix has the same faults. */
  lemma PrefixFaults(entries: seq<Entry>, n: nat, hash: Hash)
    requires n <= |entries|
    ensures forall i :: 0 <= i < n ==> FaultAt(entries[..n], i, hash) == FaultAt(entries, i, hash)
  {
    forall i | 0 <= i < n
      ensures FaultAt(entries[..n], i, hash) == FaultAt(entries, i, hash)
    {
      assert entries[..n][..i] == entries[..i];
    }
  }

  lemma PrefixIsAccepted(entries: seq<Entry>, n: nat, hash: Hash)
    requires n <= |entries| && Accepted(entries, hash)
    ensures Accepted(entries[..n], hash)
  {
    PrefixFaults(entries, n, hash);
  }

  function Next(entries: seq<Entry>, content: string, hash: Hash): Entry {
    var fields := Fields(|entries|, Tip(entries), content);
    Entry(fields, hash(fields))
  }

  /** The one entry with this content that may follow an accepted chain. */
  lemma OnlyNextExtends(entries: seq<Entry>, e: Entry, hash: Hash)
    requires Accepted(entries, hash)
    ensures Accepted(entries + [e], hash) <==> e == Next(entries, e.fields.content, hash)
  {
    var all := entries + [e];
    assert all[..|entries|] == entries;
    PrefixFaults(all, |entries|, hash);
    assert Accepted(all, hash) <==> FaultAt(all, |entries|, hash).None?;
  }

  predicate Collide(x: Fields, y: Fields, hash: Hash) {
    x != y && hash(x) == hash(y)
  }

  /** Two accepted chains with the same last hash are the same chain, or show a collision of the hash. */
  lemma {:induction false} SameTipSameChain(a: seq<Entry>, b: seq<Entry>, hash: Hash) returns (x: Fields, y: Fields)
    requires Accepted(a, hash) && Accepted(b, hash) && a != [] && b != [] && Tip(a) == Tip(b)
    ensures a == b || Collide(x, y, hash)
  {
    var m, n := |a| - 1, |b| - 1;
    x, y := a[m].fields, b[n].fields;
    LastHash(a, hash);
    LastHash(b, hash);
    if x == y {
      SameLast(a, b, hash);
      if m > 0 {
        PrefixIsAccepted(a, m, hash);
        PrefixIsAccepted(b, n, hash);
        x, y := SameTipSameChain(a[..m], b[..n], hash);
      }
    }
  }

  lemma LastHash(a: seq<Entry>, hash: Hash)
    requires Accepted(a, hash) && a != []
    ensures Tip(a) == hash(a[|a| - 1].fields)
  {
    assert FaultAt(a, |a| - 1, hash).None?;
  }

  /** Equal last fields: equal lengths, last entries and links to what is before. */
  lemma SameLast(a: seq<Entry>, b: seq<Entry>, hash: Hash)
    requires Accepted(a, hash) && Accepted(b, hash) && a != [] && b != []
    requires a[|a| - 1].fields == b[|b| - 1].fields
    ensures |a| == |b| && Tip(a[..|a| - 1]) == Tip(b[..|b| - 1])
    ensures a[..|a| - 1] == b[..|b| - 1] ==> a == b
  {
    var m, n := |a| - 1, |b| - 1;
    LastEntryIs(a, hash);
    LastEntryIs(b, hash);
    assert a == a[..m] + [a[m]] && b == b[..n] + [b[n]];
  }

  /** The last entry of an accepted chain, in terms of its content and what is before. */
  lemma LastEntryIs(a: seq<Entry>, hash: Hash)
    requires Accepted(a, hash) && a != []
    ensures var n := |a| - 1; a[n] == Entry(Fields(n, Tip(a[..n]), a[n].fields.content), hash(a[n].fields))
  {
    assert FaultAt(a, |a| - 1, hash).None?;
  }

  class AuditLogger {
    const hash: Hash
    var entries: seq<Entry>

    ghost predicate Valid()
      reads this
    {
      Accepted(entries, hash)
    }

    constructor (hash: Hash)
      ensures Valid() && this.hash == hash && entries == []
    {
      this.hash := hash;
      entries := [];
    }

    method Append(content: string) returns (entry: Entry)
      requires Valid()
      modifies this
      ensures Valid() && entries == old(entries) + [entry] && entry.fields.content == content
    {
      var previousHash := if entries != [] then entries[|entries| - 1].entryHash else GENESIS;
      var fields := Fields(|entries|, previousHash, content);
      entry := Entry(fields, hash(fields));
      OnlyNextExtends(entries, entry, hash);
      entries := entries + [entry];
    }

    method Verify() returns (fault: Option<Fault>)
      requires Valid()
      ensures fault.None?
    {
      fault := VerifyChain(entries, hash);
    }
  }
}
