/** The in-memory configuration set: a singly linked list with a tail pointer (src/config.c). */
module ConfigStore {

  const KEY_LEN := 48
  const VAL_LEN := 256

  type Entry = (string, string)

  // ----- the list as a value -----

  /** strncpy into a fixed buffer followed by a forced terminator. */
  function Fit(s: string, size: nat): string
    requires size > 0
  {
    if |s| < size then s else s[..size - 1]
  }

  /** configKeyValidate. */
  predicate KeyValid(key: string) {
    key != "" && '=' !in key
  }

  /** Keys that reach the file; those marked with '#' live in memory only. */
  predicate Persistent(key: string) {
    key != "" && key[0] != '#'
  }

  /** Least index holding key, or |es|. A stored key of at most 47 characters never equals a longer name. */
  function Find(es: seq<Entry>, key: string): (i: nat)
    ensures i <= |es| && (forall k :: 0 <= k < i ==> es[k].0 != key)
    ensures i < |es| ==> es[i].0 == key
  {
    if es == [] || es[0].0 == key then 0 else
      var i := 1 + Find(es[1..], key);
      assert forall k :: 1 <= k < i ==> es[k] == es[1..][k - 1];
      i
  }

  function SetEntry(es: seq<Entry>, key: string, val: string): seq<Entry> {
    var i := Find(es, key);
    if i == |es| then es + [(Fit(key, KEY_LEN), Fit(val, VAL_LEN))]
    else if es[i].1 == val then es
    else es[i := (es[i].0, Fit(val, VAL_LEN))]
  }

  function RemoveEntries(es: seq<Entry>, key: string): seq<Entry> {
    if es == [] then []
    else if es[0].0 == key then RemoveEntries(es[1..], key)
    else [es[0]] + RemoveEntries(es[1..], key)
  }

  lemma {:induction false} RemoveAppend(es: seq<Entry>, e: Entry, key: string)
    ensures RemoveEntries(es + [e], key) == RemoveEntries(es, key) + (if e.0 == key then [] else [e])
  {
    if es == [] {
      assert es + [e] == [e];
      assert RemoveEntries([e][1..], key) == [];
    } else {
      assert (es + [e])[1..] == es[1..] + [e];
      RemoveAppend(es[1..], e, key);
    }
  }

  // ----- the mutable list -----

  /** What fits the struct's fixed fields. */
  type Key = s: string | |s| < KEY_LEN witness ""
  type Value = s: string | |s| < VAL_LEN witness ""

  class Node {
    var key: Key
    var val: Value
    var next: Node?

    constructor (key: string, val: string)
      ensures this.key == Fit(key, KEY_LEN) && this.val == Fit(val, VAL_LEN) && next == null
    {
      this.key, this.val, this.next := Fit(key, KEY_LEN), Fit(val, VAL_LEN), null;
    }
  }

  ghost function EntriesOf(nodes: seq<Node>): seq<Entry>
    reads nodes
  {
    seq(|nodes|, i requires 0 <= i < |nodes| reads nodes => (nodes[i].key, nodes[i].val))
  }

  class ConfigSet {
    var head: Node?
    var tail: Node?
    var modified: bool
    ghost var nodes: seq<Node>

    /** head, next and tail spell out `nodes`: distinct, so acyclic; tail is the last node, null exactly when empty. */
    ghost predicate Valid()
      reads this`head, this`tail, this`nodes, nodes
    {
      && (forall i, j :: 0 <= i < j < |nodes| ==> nodes[i] != nodes[j])
      && head == (if nodes == [] then null else nodes[0])
      && tail == (if nodes == [] then null else nodes[|nodes| - 1])
      && (nodes != [] ==> nodes[|nodes| - 1].next == null)
      && forall i {:trigger nodes[i].next} :: 0 <= i < |nodes| - 1 ==> nodes[i].next == nodes[i + 1]
    }

    ghost function Entries(): seq<Entry>
      reads this`nodes, nodes
    {
      EntriesOf(nodes)
    }

    constructor ()
      ensures Valid() && nodes == [] && !modified
    {
      head, tail, modified, nodes := null, null, false, [];
    }

    /** getConfigItemForName. */
    method Item(name: string) returns (it: Node?, ghost at: nat)
      requires Valid()
      ensures at == Find(Entries(), name) && |Entries()| == |nodes|
      ensures it == (if Find(Entries(), name) < |nodes| then nodes[Find(Entries(), name)] else null)
    {
      it := head;
      at := 0;
      while it != null
        invariant at <= |nodes| && it == (if at < |nodes| then nodes[at] else null)
        invariant forall k :: 0 <= k < at ==> nodes[k].key != name
        decreases |nodes| - at
      {
        if it.key == name {
          break;
        }
        assert nodes[at].next == it.next;
        it := it.next;
        at := at + 1;
      }
      FindIs(Entries(), name, at);
    }

    /** addConfigValue; memory says whether the allocation succeeds. */
    method Add(key: string, val: string, memory: bool) returns (ok: bool)
      requires Valid()
      modifies this, nodes
      ensures Valid() && ok == memory && modified == old(modified)
      ensures Entries() == old(Entries()) + (if memory then [(Fit(key, KEY_LEN), Fit(val, VAL_LEN))] else [])
      ensures forall i :: 0 <= i < |nodes| ==> nodes[i] in old(nodes) || fresh(nodes[i])
    {
      if !memory {
        return false;
      }
      var it := new Node(key, val);
      if tail != null {
        tail.next := it;
      } else {
        head := it;
      }
      tail := it;
      nodes := nodes + [it];
      return true;
    }

    /** Overwrites the value of the node at a known position. */
    method Overwrite(it: Node, val: string, ghost at: nat)
      requires Valid() && at < |nodes| && nodes[at] == it
      modifies it`val
      ensures Valid() && it.val == Fit(val, VAL_LEN)
      ensures Entries() == old(Entries()[at := (it.key, Fit(val, VAL_LEN))])
    {
      it.val := Fit(val, VAL_LEN);
    }

    /** configSetStr on a node that is there: nothing happens when it already holds the value. */
    method Change(it: Node, val: string, ghost at: nat)
      requires Valid() && at < |nodes| && nodes[at] == it && it.key != ""
      modifies this`modified, it`val
      ensures Valid() && it.key == old(it.key)
      ensures Entries() == if old(it.val) == val then old(Entries()) else old(Entries())[at := (it.key, Fit(val, VAL_LEN))]
      ensures modified == (old(modified) || (old(it.val) != val && Persistent(it.key)))
    {
      if it.val != val {
        Overwrite(it, val, at);
        if it.key[0] != '#' {
          modified := true;
        }
      }
    }

    /** configSetStr on a key that is not there. */
    method AddNew(key: string, val: string, memory: bool) returns (ok: bool)
      requires Valid() && KeyValid(key)
      modifies this, nodes
      ensures Valid() && ok == memory && modified == (old(modified) || (ok && Persistent(key)))
      ensures Entries() == old(Entries()) + (if ok then [(Fit(key, KEY_LEN), Fit(val, VAL_LEN))] else [])
      ensures forall i :: 0 <= i < |nodes| ==> nodes[i] in old(nodes) || fresh(nodes[i])
    {
      ok := Add(key, val, memory);
      if ok && key[0] != '#' {
        modified := true;
      }
    }

    /** configSetStr. */
    method SetStr(key: string, val: string, memory: bool) returns (ok: bool)
      requires Valid()
      modifies this, nodes
      ensures Valid()
      ensures ok <==> KeyValid(key) && (memory || Find(old(Entries()), key) < |old(nodes)|)
      ensures Entries() == if ok then SetEntry(old(Entries()), key, val) else old(Entries())
      ensures modified == (old(modified) || (ok && SetMarks(old(Entries()), key, val)))
      ensures forall i :: 0 <= i < |nodes| ==> nodes[i] in old(nodes) || fresh(nodes[i])
    {
      hide Find, Fit, Persistent;
      if !KeyValid(key) {
        return false;
      }
      var it, at := Item(key);
      if it != null {
        assert it in nodes && it.key == key && it.val == Entries()[at].1;
        Change(it, val, at);
        ok := true;
      } else {
        ok := AddNew(key, val, memory);
      }
    }

    /** The unlinking branch of configRemoveKey: val is the node after prev. Returns the node after val. */
    method Unlink(prev: Node?, val: Node, ghost at: nat) returns (after: Node?)
      requires Valid() && at < |nodes| && nodes[at] == val
      requires prev == if at == 0 then null else nodes[at - 1]
      modifies this`head, this`tail, this`nodes, if prev == null then {} else {prev}
      ensures Valid() && nodes == old(nodes[..at] + nodes[at + 1..])
      ensures after == (if at < |nodes| then nodes[at] else null) && forall n :: n in nodes ==> n in old(nodes)
      ensures Entries() == old(Entries()[..at] + Entries()[at + 1..])
    {
      if val == tail {
        tail := prev;
      }
      after := val.next;
      if prev != null {
        prev.next := after;
      } else {
        head := after;
      }
      nodes := nodes[..at] + nodes[at + 1..];
    }

    /** One turn of configRemoveKey's loop at val, the node after prev: unlink it or step over it. */
    method Turn(prev: Node?, val: Node, key: string, ghost at: nat) returns (prev': Node?, val': Node?)
      requires Valid() && at < |nodes| && nodes[at] == val && KeyValid(key)
      requires prev == if at == 0 then null else nodes[at - 1]
      modifies this, if prev == null then {} else {prev}
      ensures Valid() && forall n :: n in nodes ==> n in old(nodes)
      ensures var es, es' := old(Entries()), Entries();
              if es[at].0 == key then
                && es' == es[..at] + es[at + 1..] && modified == (old(modified) || key[0] != '#')
                && prev' == (if at == 0 then null else nodes[at - 1]) && val' == (if at < |nodes| then nodes[at] else null)
              else
                && es' == es && modified == old(modified)
                && prev' == nodes[at] && val' == (if at + 1 < |nodes| then nodes[at + 1] else null)
    {
      if val.key == key {
        if key[0] != '#' {
          modified := true;
        }
        prev' := prev;
        val' := Unlink(prev, val, at);
      } else {
        prev' := val;
        val' := val.next;
      }
    }

    /** The removal walk has seen the first i entries of es, k of them kept, and stands at val after prev. */
    ghost predicate Walking(es: seq<Entry>, i: nat, key: string, prev: Node?, val: Node?)
      reads this`head, this`tail, this`nodes, nodes
    {
      && Valid() && i <= |es| && Entries() == Walked(es, i, key)
      && var k := |RemoveEntries(es[..i], key)|;
         && k <= |nodes| && val == (if k < |nodes| then nodes[k] else null)
         && prev == (if k == 0 then null else nodes[k - 1])
    }

    /** One turn of the removal walk, over the entries as they were. */
    method Advance(prev: Node?, val: Node, key: string, ghost es: seq<Entry>, ghost i: nat) returns (prev': Node?, val': Node?)
      requires Walking(es, i, key, prev, val) && KeyValid(key)
      modifies this, if prev == null then {} else {prev}
      ensures i < |es| && Walking(es, i + 1, key, prev', val') && forall n :: n in nodes ==> n in old(nodes)
      ensures modified == (old(modified) || (es[i].0 == key && key[0] != '#'))
    {
      ghost var k := |RemoveEntries(es[..i], key)|;
      assert |Entries()| == |nodes|;
      WalkedSize(es, i, key);
      StepRemove(es, i, key);
      WalkedSize(es, i + 1, key);
      prev', val' := Turn(prev, val, key, k);
      assert |Entries()| == |nodes|;
    }

    /** configRemoveKey: unlinks every node with that key. */
    method RemoveKey(key: string) returns (ok: bool)
      requires Valid()
      modifies this, nodes
      ensures Valid() && ok == KeyValid(key)
      ensures Entries() == if ok then RemoveEntries(old(Entries()), key) else old(Entries())
      ensures modified == (old(modified) || (ok && key[0] != '#' && Has(old(Entries()), |old(nodes)|, key)))
      ensures forall n :: n in nodes ==> n in old(nodes)
    {
      if !KeyValid(key) {
        return false;
      }
      ghost var es := Entries();
      var val, prev: Node? := head, null;
      ghost var i := 0;
      WalkedEnds(es, key);
      while val != null
        invariant Walking(es, i, key, prev, val) && forall n :: n in nodes ==> n in old(nodes)
        invariant modified == (old(modified) || (key[0] != '#' && Has(es, i, key)))
        decreases |es| - i
      {
        HasNext(es, i, key);
        assert prev != null ==> prev in nodes;
        prev, val := Advance(prev, val, key, es, i);
        i := i + 1;
      }
      WalkedSize(es, i, key);
      assert |Entries()| == |nodes| && i == |es|;
      return true;
    }
  }

  lemma HasNext(es: seq<Entry>, i: nat, key: string)
    ensures i < |es| ==> (Has(es, i + 1, key) <==> Has(es, i, key) || es[i].0 == key)
  {
  }

  /** One of the first i entries has that key. */
  predicate Has(es: seq<Entry>, i: nat, key: string)
    requires i <= |es|
  {
    exists k :: 0 <= k < i && es[k].0 == key
  }

  /** The list when the removal walk has seen its first i nodes. */
  ghost function Walked(es: seq<Entry>, i: nat, key: string): seq<Entry>
    requires i <= |es|
  {
    RemoveEntries(es[..i], key) + es[i..]
  }

  lemma WalkedEnds(es: seq<Entry>, key: string)
    ensures RemoveEntries(es[..0], key) == [] && Walked(es, 0, key) == es && !Has(es, 0, key)
    ensures Walked(es, |es|, key) == RemoveEntries(es, key)
  {
    assert es[..|es|] == es;
  }

  lemma WalkedSize(es: seq<Entry>, i: nat, key: string)
    requires i <= |es|
    ensures |Walked(es, i, key)| == |RemoveEntries(es[..i], key)| + (|es| - i)
  {
  }

  /** One more node seen by the removal walk: unlinked or kept. */
  lemma StepRemove(es: seq<Entry>, i: nat, key: string)
    requires i < |es|
    ensures var w, k := Walked(es, i, key), |RemoveEntries(es[..i], key)|;
            && k < |w| && w[k] == es[i]
            && (es[i].0 == key ==> Walked(es, i + 1, key) == w[..k] + w[k + 1..] && |RemoveEntries(es[..i + 1], key)| == k)
            && (es[i].0 != key ==> Walked(es, i + 1, key) == w && |RemoveEntries(es[..i + 1], key)| == k + 1)
    ensures Has(es, i + 1, key) <==> Has(es, i, key) || es[i].0 == key
  {
    assert es[..i + 1] == es[..i] + [es[i]];
    RemoveAppend(es[..i], es[i], key);
    assert es[i..] == [es[i]] + es[i + 1..];
  }

  /** When configSetStr raises the modified flag: a persistent key whose stored value differs from the new one. */
  predicate SetMarks(es: seq<Entry>, key: string, val: string) {
    Persistent(key) && var i := Find(es, key); i == |es| || es[i].1 != val
  }

  lemma FindIs(es: seq<Entry>, key: string, at: nat)
    requires at <= |es| && (forall k :: 0 <= k < at ==> es[k].0 != key) && (at < |es| ==> es[at].0 == key)
    ensures Find(es, key) == at
  {
  }
}
