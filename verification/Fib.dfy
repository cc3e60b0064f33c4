/**
  The forwarding information base: two-stage longest prefix match (csrc/fib/fib.c, csrc/fib/entry.h),
  the name tree behind it (container/fib/fibtree), and the updates that keep the lookup table in
  line with the tree (container/fib/fibreplica).

  A node of the tree is identified by its path, the components from the root; the lookup table maps
  a path to an entry.
 */
module Fib {
  import opened Common
  import opened Chain

  type Path = seq<Bytes>

  /** What an entry says: nexthops and strategy. */
  type Body = nat

  // ------------------------------------------------------------------ lookup

  /** An entry of the table; a virtual entry may have a real one behind it. */
  datatype Entry = Real(body: Body) | Virtual(height: nat, behind: Option<Body>)

  type Table = map<Path, Entry>

  function GetReal(table: Table, p: Path): (r: Option<Body>) {
    if p !in table then None
    else match table[p] case Real(b) => Some(b) case Virtual(_, b) => b
  }

  /** The longest of the prefixes up to `k` components that has an entry. */
  function Longest(entries: map<Path, Body>, name: Path, k: nat): (r: Option<Body>)
    requires k <= |name|
  {
    if name[..k] in entries then Some(entries[name[..k]]) else if k == 0 then None else Longest(entries, name, k - 1)
  }

  /**
    The table shows the given entries: virtual entries occur only at the start depth, there is one
    above all deeper entries, and it is at least as high as the deepest of them.
   */
  ghost predicate Shows(table: Table, startDepth: nat, entries: map<Path, Body>) {
    && (forall p: Path :: GetReal(table, p) == if p in entries then Some(entries[p]) else None)
    && (forall p | p in table && table[p].Virtual? :: |p| == startDepth && table[p].height > 0)
    && (forall p, q | q in entries && |p| == startDepth < |q| && p <= q ::
          p in table && table[p].Virtual? && table[p].height >= |q| - startDepth)
  }

  /** Prefixes without entries do not matter. */
  lemma {:induction false} SkipLonger(entries: map<Path, Body>, name: Path, k: nat, n: nat)
    requires k <= n <= |name| && forall i | k < i <= n :: name[..i] !in entries
    ensures Longest(entries, name, n) == Longest(entries, name, k)
    decreases n
  {
    if k < n {
      SkipLonger(entries, name, k, n - 1);
    }
  }

  /** Below an entry of the table that is missing or real at the start depth, there is nothing deeper. */
  lemma NothingDeeper(table: Table, sd: nat, entries: map<Path, Body>, name: Path)
    requires Shows(table, sd, entries) && sd <= |name|
    requires name[..sd] !in table || table[name[..sd]].Real?
    ensures forall i | sd < i <= |name| :: name[..i] !in entries
  {
    forall i | sd < i <= |name| ensures name[..i] !in entries {
      assert name[..sd] <= name[..i];
    }
  }

  lemma NotBeyond(table: Table, sd: nat, entries: map<Path, Body>, name: Path)
    requires Shows(table, sd, entries) && sd <= |name| && name[..sd] in table && table[name[..sd]].Virtual?
    ensures forall i | sd + table[name[..sd]].height < i <= |name| :: name[..i] !in entries
  {
    forall i | sd + table[name[..sd]].height < i <= |name| ensures name[..i] !in entries {
      assert name[..sd] <= name[..i];
    }
  }

  lemma RealAt(table: Table, sd: nat, entries: map<Path, Body>, p: Path)
    requires Shows(table, sd, entries)
    ensures GetReal(table, p) == if p in entries then Some(entries[p]) else None
  {
  }

  /** Two-stage longest prefix match finds the longest prefix. */
  method Lpm(table: Table, startDepth: nat, name: Path, ghost entries: map<Path, Body>) returns (r: Option<Body>)
    requires Shows(table, startDepth, entries)
    ensures r == Longest(entries, name, |name|)
  {
    hide Shows;
    var prefixLen: int := |name|;
    if startDepth < |name| {
      var p := name[..startDepth];
      RealAt(table, startDepth, entries, p);
      if p !in table {
        NothingDeeper(table, startDepth, entries, name);
        SkipLonger(entries, name, startDepth, |name|);
        prefixLen := startDepth - 1;
      } else if table[p].Virtual? {
        NotBeyond(table, startDepth, entries, name);
        prefixLen := if startDepth + table[p].height < |name| then startDepth + table[p].height else |name|;
        SkipLonger(entries, name, prefixLen, |name|);
      } else {
        NothingDeeper(table, startDepth, entries, name);
        SkipLonger(entries, name, startDepth, |name|);
        return Some(table[p].body);
      }
    }
    while prefixLen >= 0
      invariant -1 <= prefixLen <= |name|
      invariant Longest(entries, name, |name|) == if prefixLen < 0 then None else Longest(entries, name, prefixLen)
    {
      RealAt(table, startDepth, entries, name[..prefixLen]);
      var e := GetReal(table, name[..prefixLen]);
      if e.Some? {
        return e;
      }
      prefixLen := prefixLen - 1;
    }
    r := None;
  }
}
