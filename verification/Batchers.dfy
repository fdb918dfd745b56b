/**
 * The two timed batchers: acknowledgements, which repeat the last few entries of
 * earlier batches, and requests for lost passes, which do not.
 *
 * Beside its buffer each keeps everything ever added and everything ever sent
 * first-hand; together with the buffer these account for every entry.
 */
module Batchers {
  import opened Serial

  const FLUSH_INTERVAL_US: nat := 5_000
  const MAX_FRESH_ENTRIES_PER_BATCH: nat := 64
  const ACK_OVERLAP_COUNT: nat := 8
  const MAX_RECENT: nat := 32
  const NACK_BATCH_MAX: nat := 64

  /** The last `n` of `s`, or all of it. */
  function Last<T>(s: seq<T>, n: nat): (r: seq<T>)
    ensures |r| == if |s| < n then |s| else n
  {
    if |s| <= n then s else s[|s| - n..]
  }

  lemma LastOfLast<T>(s: seq<T>, n: nat, m: nat)
    requires m <= n
    ensures Last(Last(s, n), m) == Last(s, m)
  {
  }

  lemma LastOfExtended<T>(s: seq<T>, t: seq<T>, n: nat)
    ensures Last(Last(s, n) + t, n) == Last(s + t, n)
  {
  }

  class AckBatcher<E> {
    var entries: seq<E>
    var recent: seq<E>
    var deadline: Option<nat>

    ghost var added: seq<E>
    ghost var sent: seq<E>
    /** When the oldest entry still waiting was added. */
    ghost var waitingSince: nat

    ghost predicate Valid()
      reads this
    {
      && added == sent + entries
      && recent == Last(sent, MAX_RECENT)
      && |entries| < MAX_FRESH_ENTRIES_PER_BATCH
      && (deadline.Some? <==> entries != [])
      && (deadline.Some? ==> deadline.value == waitingSince + FLUSH_INTERVAL_US)
    }

    constructor ()
      ensures Valid() && added == []
    {
      entries, recent, deadline, added, sent, waitingSince := [], [], None, [], [], 0;
    }

    /** Add an entry; a full buffer leaves at once, the first one arms the deadline. */
    method Add(e: E, now: nat) returns (batch: Option<seq<E>>)
      requires Valid()
      modifies this
      ensures Valid() && added == old(added) + [e]
      ensures if |old(entries)| + 1 == MAX_FRESH_ENTRIES_PER_BATCH
        then batch == Some(old(entries) + [e] + Last(old(sent), ACK_OVERLAP_COUNT)) && sent == added
        else && batch == None && sent == old(sent) && entries == old(entries) + [e]
             && deadline == Some(waitingSince + FLUSH_INTERVAL_US)
      ensures waitingSince == if old(entries) == [] then now else old(waitingSince)
    {
      ghost var first := entries == [];
      entries, added := entries + [e], added + [e];
      if first { waitingSince := now; }
      batch := None;
      if |entries| >= MAX_FRESH_ENTRIES_PER_BATCH {
        batch := Flush();
      } else if deadline.None? {
        deadline := Some(now + FLUSH_INTERVAL_US);
      }
    }

    /**
     * Everything waiting leaves, in order, followed by the last entries of
     * earlier batches. What is not waiting never leaves first-hand again.
     */
    method Flush() returns (batch: Option<seq<E>>)
      requires added == sent + entries && recent == Last(sent, MAX_RECENT)
      modifies this`entries, this`recent, this`deadline, this`sent
      ensures Valid() && entries == [] && sent == added
      ensures batch == if old(entries) == [] then None else Some(old(entries) + Last(old(sent), ACK_OVERLAP_COUNT))
    {
      deadline := None;
      if entries == [] { return None; }
      var fresh' := entries;
      entries := [];
      var overlap := if |recent| <= ACK_OVERLAP_COUNT then recent else recent[|recent| - ACK_OVERLAP_COUNT..];
      LastOfLast(sent, MAX_RECENT, ACK_OVERLAP_COUNT);
      LastOfExtended(sent, fresh', MAX_RECENT);
      recent, sent := recent + fresh', sent + fresh';
      while |recent| > MAX_RECENT
        invariant Last(recent, MAX_RECENT) == Last(sent, MAX_RECENT)
        invariant entries == [] && deadline == None && sent == added
        decreases |recent|
      {
        recent := recent[1..];
      }
      return Some(fresh' + overlap);
    }

    method OnTimeout(now: nat) returns (batch: Option<seq<E>>)
      requires Valid()
      modifies this`entries, this`recent, this`deadline, this`sent
      ensures Valid()
      ensures deadline.Some? ==> deadline.value > now
      ensures if old(deadline).Some? && old(deadline).value <= now
        then batch == Some(old(entries) + Last(old(sent), ACK_OVERLAP_COUNT)) && entries == [] && sent == added
        else batch == None && entries == old(entries) && sent == old(sent) && deadline == old(deadline)
    {
      batch := None;
      if deadline.Some? && now >= deadline.value { batch := Flush(); }
    }
  }

  class NackBatcher<E> {
    var entries: seq<E>
    var deadline: Option<nat>

    ghost var added: seq<E>
    ghost var sent: seq<E>

    ghost predicate Valid()
      reads this
    {
      added == sent + entries && |entries| < NACK_BATCH_MAX && (deadline.Some? <==> entries != [])
    }

    constructor ()
      ensures Valid() && added == []
    {
      entries, deadline, added, sent := [], None, [], [];
    }

    method Add(e: E, now: nat) returns (batch: Option<seq<E>>)
      requires Valid()
      modifies this
      ensures Valid() && added == old(added) + [e]
      ensures if |old(entries)| + 1 == NACK_BATCH_MAX
        then batch == Some(old(entries) + [e]) && entries == [] && sent == added
        else batch == None && sent == old(sent) && entries == old(entries) + [e]
      ensures deadline == if entries == [] then None
                          else if old(deadline).Some? then old(deadline) else Some(now + FLUSH_INTERVAL_US)
    {
      entries, added := entries + [e], added + [e];
      batch := None;
      if |entries| >= NACK_BATCH_MAX {
        batch := Flush();
      } else if deadline.None? {
        deadline := Some(now + FLUSH_INTERVAL_US);
      }
    }

    method Flush() returns (batch: Option<seq<E>>)
      requires added == sent + entries
      modifies this`entries, this`deadline, this`sent
      ensures Valid() && entries == [] && sent == added
      ensures batch == if old(entries) == [] then None else Some(old(entries))
    {
      deadline := None;
      if entries == [] { return None; }
      batch := Some(entries);
      entries, sent := [], sent + entries;
    }

    method OnTimeout(now: nat) returns (batch: Option<seq<E>>)
      requires Valid()
      modifies this`entries, this`deadline, this`sent
      ensures Valid()
      ensures deadline.Some? ==> deadline.value > now
      ensures if old(deadline).Some? && old(deadline).value <= now
        then batch == Some(old(entries)) && entries == [] && sent == added
        else batch == None && entries == old(entries) && sent == old(sent) && deadline == old(deadline)
    {
      batch := None;
      if deadline.Some? && now >= deadline.value { batch := Flush(); }
    }
  }
}
