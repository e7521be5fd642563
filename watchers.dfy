/**
 * The `@watchers` table of a notifier: a Ruby Hash from watch descriptor to
 * the watched path and the block to call. A Ruby Hash keeps its keys in
 * insertion order, so the table is a sequence of entries with distinct keys;
 * assigning to a present key replaces its value where it stands, assigning to
 * a new key appends, and `delete` drops the entry and keeps the others in order.
 */
module Watchers {
  import opened Wrappers

  /**
   * What `watch` stores for a descriptor. The block is an opaque handle, or
   * `None` when `watch` was given no block: the notifier only ever calls it.
   */
  datatype Watcher = Watcher(path: string, callback: Option<nat>)

  datatype Entry = Entry(wd: int, watcher: Watcher)

  type Table = seq<Entry>

  /** The descriptors that have an entry. */
  function Keys(t: Table): set<int>
  {
    if t == [] then {} else {t[0].wd} + Keys(t[1..])
  }

  /** No descriptor occurs twice: the table is a dictionary. */
  predicate UniqueKeys(t: Table)
  {
    t == [] || (t[0].wd !in Keys(t[1..]) && UniqueKeys(t[1..]))
  }

  /** A descriptor has an entry exactly when some position of the table holds it. */
  lemma {:induction false} KeysAt(t: Table, wd: int)
    ensures wd in Keys(t) <==> exists i :: 0 <= i < |t| && t[i].wd == wd
  {
    if t != [] {
      KeysAt(t[1..], wd);
      if wd in Keys(t[1..]) {
        var i :| 0 <= i < |t[1..]| && t[1..][i].wd == wd;
        assert t[i + 1].wd == wd;
      }
      if exists i :: 0 < i < |t| && t[i].wd == wd {
        var i :| 0 < i < |t| && t[i].wd == wd;
        assert t[1..][i - 1].wd == wd;
      }
    }
  }

  /** A table with unique keys has no two positions holding the same descriptor. */
  lemma {:induction false} UniqueKeysPairwise(t: Table, i: nat, j: nat)
    requires UniqueKeys(t) && i < j < |t|
    ensures t[i].wd != t[j].wd
  {
    if i == 0 {
      KeysAt(t[1..], t[j].wd);
      assert t[1..][j - 1].wd == t[j].wd;
    } else {
      UniqueKeysPairwise(t[1..], i - 1, j - 1);
    }
  }

  /** `@watchers[wd]`: the watcher stored for `wd`, or `nil`. */
  function Get(t: Table, wd: int): (r: Option<Watcher>)
    ensures r.Some? <==> wd in Keys(t)
  {
    if t == [] then None
    else if t[0].wd == wd then Some(t[0].watcher)
    else Get(t[1..], wd)
  }

  /** The watcher `Get` returns is the one stored with the descriptor. */
  lemma {:induction false} GetEntry(t: Table, wd: int)
    requires Get(t, wd).Some?
    ensures exists i :: 0 <= i < |t| && t[i] == Entry(wd, Get(t, wd).value)
  {
    if t[0].wd != wd {
      GetEntry(t[1..], wd);
      var i :| 0 <= i < |t[1..]| && t[1..][i] == Entry(wd, Get(t, wd).value);
      assert t[i + 1] == t[1..][i];
    }
  }

  /**
   * `@watchers[wd] = w`: the entry for `wd` gets the new watcher in its old
   * place, or a new entry goes at the end.
   */
  function Put(t: Table, wd: int, w: Watcher): (r: Table)
    ensures Get(r, wd) == Some(w)
    ensures forall k :: k != wd ==> Get(r, k) == Get(t, k)
    ensures Keys(r) == Keys(t) + {wd}
    ensures UniqueKeys(t) ==> UniqueKeys(r)
    ensures wd !in Keys(t) ==> r == t + [Entry(wd, w)]
  {
    if t == [] then [Entry(wd, w)]
    else if t[0].wd == wd then [Entry(wd, w)] + t[1..]
    else
      var rest := Put(t[1..], wd, w);
      assert wd !in Keys(t) ==> t + [Entry(wd, w)] == [t[0]] + (t[1..] + [Entry(wd, w)]);
      [t[0]] + rest
  }

  /** Storing under the descriptor at position `i` replaces that entry and leaves every other in place. */
  lemma {:induction false} PutAt(t: Table, i: nat, w: Watcher)
    requires UniqueKeys(t) && i < |t|
    ensures Put(t, t[i].wd, w) == t[i := Entry(t[i].wd, w)]
  {
    if i > 0 {
      UniqueKeysPairwise(t, 0, i);
      PutAt(t[1..], i - 1, w);
      assert t[1..][i - 1] == t[i];
      assert t[i := Entry(t[i].wd, w)] == [t[0]] + t[1..][i - 1 := Entry(t[i].wd, w)];
    }
  }

  /** `@watchers.delete(wd)`: the table without the entry for `wd`, the rest in order. */
  function Delete(t: Table, wd: int): (r: Table)
    ensures wd !in Keys(r)
    ensures forall k :: k != wd ==> Get(r, k) == Get(t, k)
    ensures Keys(r) == Keys(t) - {wd}
    ensures UniqueKeys(t) ==> UniqueKeys(r)
    ensures wd !in Keys(t) ==> r == t
  {
    if t == [] then []
    else if t[0].wd == wd then Delete(t[1..], wd)
    else [t[0]] + Delete(t[1..], wd)
  }

  /** Deleting the descriptor at position `i` removes exactly that entry, the others keeping their order. */
  lemma {:induction false} DeleteAt(t: Table, i: nat)
    requires UniqueKeys(t) && i < |t|
    ensures Delete(t, t[i].wd) == t[..i] + t[i + 1..]
  {
    if i == 0 {
      assert Delete(t, t[0].wd) == Delete(t[1..], t[0].wd);
    } else {
      UniqueKeysPairwise(t, 0, i);
      DeleteAt(t[1..], i - 1);
      assert t[1..][i - 1] == t[i];
      assert t[..i] + t[i + 1..] == [t[0]] + (t[1..][..i - 1] + t[1..][i..]);
    }
  }

  /** Position `i` is the first entry, in table order, that watches `path`. */
  predicate FirstWithPath(t: Table, path: string, i: int)
  {
    0 <= i < |t| && t[i].watcher.path == path && forall j :: 0 <= j < i ==> t[j].watcher.path != path
  }

  /**
   * `@watchers.find { |wd, w| w[:path] == path }`: the descriptor of the first
   * entry, in table order, that watches `path`.
   */
  function FindByPath(t: Table, path: string): (r: Option<int>)
    ensures r.None? <==> forall i :: 0 <= i < |t| ==> t[i].watcher.path != path
    ensures r.Some? ==> exists i :: FirstWithPath(t, path, i) && t[i].wd == r.value
  {
    if t == [] then None
    else if t[0].watcher.path == path then Some(t[0].wd)
    else
      var rest := FindByPath(t[1..], path);
      assert forall i :: 0 < i < |t| ==> t[i] == t[1..][i - 1];
      assert rest.Some? ==> exists i :: FirstWithPath(t, path, i) && t[i].wd == rest.value by {
        if rest.Some? {
          var i :| FirstWithPath(t[1..], path, i) && t[1..][i].wd == rest.value;
          assert t[i + 1] == t[1..][i];
          forall j | 0 <= j < i + 1 ensures t[j].watcher.path != path {
            if j > 0 {
              assert t[j] == t[1..][j - 1];
            }
          }
        }
      }
      rest
  }

  /** Storing a new descriptor and deleting it again gives back the table. */
  lemma {:induction false} DeletePutNew(t: Table, wd: int, w: Watcher)
    requires wd !in Keys(t)
    ensures Delete(Put(t, wd, w), wd) == t
  {
    if t != [] {
      DeletePutNew(t[1..], wd, w);
      assert Put(t, wd, w) == [t[0]] + Put(t[1..], wd, w);
    }
  }

  /** Overwriting a present descriptor and then deleting it is the same as deleting it. */
  lemma {:induction false} DeletePutPresent(t: Table, wd: int, w: Watcher)
    requires UniqueKeys(t) && wd in Keys(t)
    ensures Delete(Put(t, wd, w), wd) == Delete(t, wd)
  {
    if t[0].wd != wd {
      DeletePutPresent(t[1..], wd, w);
      assert Put(t, wd, w) == [t[0]] + Put(t[1..], wd, w);
    } else {
      assert Put(t, wd, w) == [Entry(wd, w)] + t[1..];
    }
  }

  /** Right after `watch(path, …)` stored it, `unwatch_by_path(path)` finds a watcher for `path`. */
  lemma FindAfterPut(t: Table, wd: int, path: string, callback: Option<nat>)
    ensures FindByPath(Put(t, wd, Watcher(path, callback)), path).Some?
  {
    var r := Put(t, wd, Watcher(path, callback));
    GetEntry(r, wd);
    var i :| 0 <= i < |r| && r[i] == Entry(wd, Watcher(path, callback));
    assert r[i].watcher.path == path;
  }
}
