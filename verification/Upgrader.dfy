/** The dependency-ordered migrations of cpt_upgrader.py, for upgraders only. */
module Upgrader {
  import Sets

  type Tag = string

  /** What an upgrader file declares: the tags it comes after and the tags it comes before. */
  datatype Declared = Declared(depends: set<Tag>, forward: set<Tag>)

  // ----- load_all -----

  /** Every tag that a file mentions is that of a file. */
  ghost predicate Known(files: map<Tag, Declared>) {
    forall t | t in files :: files[t].depends <= files.Keys && files[t].forward <= files.Keys
  }

  /** The dependencies of a tag: its own, and the tags that come before it by their own account. */
  ghost function Resolved(files: map<Tag, Declared>, t: Tag): set<Tag>
    requires t in files
  {
    files[t].depends + set u | u in files && t in files[u].forward
  }

  /** The dependencies once the forward dependencies of the files in done have been added. */
  ghost function ResolvedBy(files: map<Tag, Declared>, done: set<Tag>, t: Tag): set<Tag>
    requires t in files
  {
    files[t].depends + set u | u in done && u in files && t in files[u].forward
  }

  ghost predicate Progress(files: map<Tag, Declared>, depends: map<Tag, set<Tag>>, done: set<Tag>) {
    depends.Keys == files.Keys && forall t | t in files :: depends[t] == ResolvedBy(files, done, t)
  }

  ghost predicate Audited(files: map<Tag, Declared>, done: set<Tag>) {
    forall t | t in done :: t in files && files[t].depends <= files.Keys && files[t].forward <= files.Keys
  }

  lemma ProgressOne(files: map<Tag, Declared>, done: set<Tag>, tag: Tag, t: Tag)
    requires t in files && tag in files
    ensures ResolvedBy(files, done + {tag}, t) ==
      if t in files[tag].forward then ResolvedBy(files, done, t) + {tag} else ResolvedBy(files, done, t)
  {
  }

  lemma ResolvedKnown(files: map<Tag, Declared>, done: set<Tag>, t: Tag)
    requires t in files
    ensures ResolvedBy(files, done, t) <= files.Keys <==> files[t].depends <= files.Keys
  {
  }

  lemma ResolvedAll(files: map<Tag, Declared>, depends: map<Tag, set<Tag>>)
    requires Progress(files, depends, files.Keys) && Audited(files, files.Keys)
    ensures Known(files)
    ensures forall t | t in files :: depends[t] == Resolved(files, t) && depends[t] <= depends.Keys
  {
    forall t | t in files
      ensures depends[t] == Resolved(files, t) && depends[t] <= depends.Keys
    {
      assert ResolvedBy(files, files.Keys, t) == Resolved(files, t);
    }
  }

  lemma MoveOne(todo: set<Tag>, done: set<Tag>, t: Tag)
    requires todo !! done && t in todo
    ensures (todo - {t}) + (done + {t}) == todo + done && (todo - {t}) !! (done + {t})
  {
  }

  /** The dependency part of load_all: it fails exactly when a file mentions a tag that is not there. */
  method Resolve(files: map<Tag, Declared>) returns (ok: bool, depends: map<Tag, set<Tag>>)
    ensures ok <==> Known(files)
    ensures ok ==> depends.Keys == files.Keys
    ensures ok ==> forall t | t in files :: depends[t] == Resolved(files, t) && depends[t] <= depends.Keys
  {
    depends := map t | t in files :: files[t].depends;
    var todo := files.Keys;
    ghost var done: set<Tag> := {};
    while todo != {}
      invariant todo !! done && todo + done == files.Keys
      invariant Progress(files, depends, done) && Audited(files, done)
      decreases |todo|
    {
      ghost var some := Sets.Pick(todo);
      var tag :| tag in todo;
      if !(files[tag].forward <= files.Keys) {
        return false, depends;
      }
      depends := AddForward(files, depends, tag, done);
      ResolvedKnown(files, done + {tag}, tag);
      if !(depends[tag] <= files.Keys) {
        return false, depends;
      }
      MoveOne(todo, done, tag);
      todo, done := todo - {tag}, done + {tag};
    }
    assert done == files.Keys;
    ResolvedAll(files, depends);
    ok := true;
  }

  method AddForward(files: map<Tag, Declared>, depends: map<Tag, set<Tag>>, tag: Tag, ghost done: set<Tag>)
    returns (depends': map<Tag, set<Tag>>)
    requires tag in files && Progress(files, depends, done)
    ensures Progress(files, depends', done + {tag})
  {
    depends' := map t | t in depends :: if t in files[tag].forward then depends[t] + {tag} else depends[t];
    forall t | t in files
      ensures depends'[t] == ResolvedBy(files, done + {tag}, t)
    {
      ProgressOne(files, done, tag, t);
    }
  }

  // ----- the migration loop -----

  predicate Ready(depends: map<Tag, set<Tag>>, t: Tag, tags: set<Tag>) {
    t in depends && depends[t] <= tags
  }

  /** A set of missing upgrades in which each waits for another, or for itself. */
  ghost predicate Stuck(depends: map<Tag, set<Tag>>, tags: set<Tag>, s: set<Tag>) {
    s != {} && s <= depends.Keys - tags && forall t {:trigger depends[t] * s} | t in s :: depends[t] * s != {}
  }

  ghost predicate NoDup(s: seq<Tag>) {
    forall i, j | 0 <= i < j < |s| :: Differ(s, i, j)
  }

  predicate Differ(s: seq<Tag>, i: nat, j: nat)
    requires i < |s| && j < |s|
  {
    s[i] != s[j]
  }

  /** Each upgrade in the order has all its dependencies before it. */
  ghost predicate InOrder(depends: map<Tag, set<Tag>>, tags: set<Tag>, order: seq<Tag>) {
    forall i | 0 <= i < |order| :: ReadyAt(depends, tags, order, i)
  }

  ghost predicate ReadyAt(depends: map<Tag, set<Tag>>, tags: set<Tag>, order: seq<Tag>, i: nat)
    requires i < |order|
  {
    Ready(depends, order[i], tags + Elements(order[..i]))
  }

  ghost function Elements(s: seq<Tag>): set<Tag> {
    set x | x in s
  }

  /** The upgrades applied so far are an ordered choice of the missing ones, and the tags say so. */
  ghost predicate Applied(depends: map<Tag, set<Tag>>, tags0: set<Tag>, tags: set<Tag>, order: seq<Tag>) {
    && NoDup(order) && InOrder(depends, tags0, order) && tags == tags0 + Elements(order)
    && Elements(order) !! tags0 && Elements(order) <= depends.Keys
  }

  lemma ApplyOne(depends: map<Tag, set<Tag>>, tags0: set<Tag>, tags: set<Tag>, order: seq<Tag>, t: Tag)
    requires Applied(depends, tags0, tags, order) && t !in tags && Ready(depends, t, tags)
    ensures Applied(depends, tags0, tags + {t}, order + [t])
  {
    var order' := order + [t];
    assert Elements(order') == Elements(order) + {t};
    forall i | 0 <= i < |order'|
      ensures ReadyAt(depends, tags0, order', i)
    {
      assert order'[..i] == order[..i];
      if i < |order| {
        assert ReadyAt(depends, tags0, order, i);
      } else {
        assert order[..i] == order;
      }
    }
    forall i, j | 0 <= i < j < |order'|
      ensures Differ(order', i, j)
    {
      if j < |order| {
        assert Differ(order, i, j);
      } else {
        assert order[i] in Elements(order);
      }
    }
  }

  /** No member of a stuck set has been applied. */
  ghost predicate Avoids(depends: map<Tag, set<Tag>>, tags0: set<Tag>, tags: set<Tag>) {
    forall s | Stuck(depends, tags0, s) :: tags !! s
  }

  /** While no member of a stuck set has been applied, none is ready. */
  lemma StuckStays(depends: map<Tag, set<Tag>>, tags0: set<Tag>, tags: set<Tag>, s: set<Tag>, t: Tag)
    requires Stuck(depends, tags0, s) && tags !! s && Ready(depends, t, tags)
    ensures t !in s
  {
    assert depends[t] * s == {};
  }

  lemma AvoidsOne(depends: map<Tag, set<Tag>>, tags0: set<Tag>, tags: set<Tag>, tags': set<Tag>, t: Tag)
    requires Avoids(depends, tags0, tags) && Avoids(depends, tags0, tags') && Ready(depends, t, tags)
    ensures Avoids(depends, tags0, tags' + {t})
  {
    forall s | Stuck(depends, tags0, s)
      ensures (tags' + {t}) !! s
    {
      StuckStays(depends, tags0, tags, s, t);
    }
  }

  /** If nothing is ready, what is left is stuck. */
  lemma LeftIsStuck(depends: map<Tag, set<Tag>>, tags0: set<Tag>, tags: set<Tag>, left: set<Tag>)
    requires (forall t | t in depends :: depends[t] <= depends.Keys) && left != {} && tags0 <= tags
    requires left == depends.Keys - tags && forall t | t in left :: !Ready(depends, t, tags)
    ensures Stuck(depends, tags0, left)
  {
    forall t | t in left
      ensures depends[t] * left != {}
    {
      assert depends[t] <= tags + (depends[t] - tags);
      var d := Sets.Pick(depends[t] - tags);
      assert d in depends[t] * left;
    }
  }

  lemma Smaller(left: set<Tag>, ready: set<Tag>)
    requires ready != {} && ready <= left
    ensures |left - ready| < |left|
  {
    assert left == (left - ready) + ready;
  }

  lemma LeftAfter(keys: set<Tag>, tags: set<Tag>, left: set<Tag>, ready: set<Tag>)
    requires left == keys - tags && ready <= left
    ensures left - ready == keys - (tags + ready) && ready !! tags
  {
  }

  method FindReady(depends: map<Tag, set<Tag>>, tags: set<Tag>, left: set<Tag>) returns (ready: set<Tag>)
    requires left <= depends.Keys
    ensures ready <= left && (forall t | t in ready :: Ready(depends, t, tags))
    ensures forall t | t in left && t !in ready :: !Ready(depends, t, tags)
  {
    ready := set t | t in left && Ready(depends, t, tags);
  }

  lemma Finished(depends: map<Tag, set<Tag>>, tags0: set<Tag>, tags: set<Tag>, order: seq<Tag>)
    requires Applied(depends, tags0, tags, order) && Avoids(depends, tags0, tags) && depends.Keys - tags == {}
    ensures tags == tags0 + depends.Keys && Elements(order) == depends.Keys - tags0
    ensures forall s :: !Stuck(depends, tags0, s)
  {
    assert depends.Keys <= tags + (depends.Keys - tags);
  }

  /** The to_apply loop of process_file: the tags at the end and the upgrades in the order they were applied. */
  method Migrate(depends: map<Tag, set<Tag>>, tags0: set<Tag>) returns (ok: bool, tags: set<Tag>, order: seq<Tag>)
    requires forall t | t in depends :: depends[t] <= depends.Keys
    ensures Applied(depends, tags0, tags, order)
    ensures ok ==> tags == tags0 + depends.Keys && Elements(order) == depends.Keys - tags0
    ensures !ok <==> exists s :: Stuck(depends, tags0, s)
    ensures depends.Keys <= tags0 ==> ok && tags == tags0 && order == []
  {
    var left := depends.Keys - tags0;
    tags, order := tags0, [];
    while left != {}
      invariant Applied(depends, tags0, tags, order) && left == depends.Keys - tags
      invariant Avoids(depends, tags0, tags)
      invariant depends.Keys <= tags0 ==> order == []
      decreases |left|
    {
      var ready := FindReady(depends, tags, left);
      if ready == {} {
        LeftIsStuck(depends, tags0, tags, left);
        return false, tags, order;
      }
      Smaller(left, ready);
      LeftAfter(depends.Keys, tags, left, ready);
      tags, order := ApplyAll(depends, tags0, tags, order, ready);
      left := left - ready;
    }
    Finished(depends, tags0, tags, order);
    return true, tags, order;
  }

  /** One round: the ready upgrades, in no particular order. */
  method ApplyAll(depends: map<Tag, set<Tag>>, ghost tags0: set<Tag>, tags: set<Tag>, order: seq<Tag>, ready: set<Tag>)
    returns (tags': set<Tag>, order': seq<Tag>)
    requires Applied(depends, tags0, tags, order) && ready !! tags && forall t | t in ready :: Ready(depends, t, tags)
    requires Avoids(depends, tags0, tags)
    ensures Applied(depends, tags0, tags', order') && tags' == tags + ready
    ensures Avoids(depends, tags0, tags')
  {
    tags', order' := tags, order;
    var todo := ready;
    while todo != {}
      invariant todo !! tags' && todo + tags' == tags + ready && todo <= ready
      invariant Applied(depends, tags0, tags', order')
      invariant Avoids(depends, tags0, tags')
      decreases |todo|
    {
      ghost var some := Sets.Pick(todo);
      var t :| t in todo;
      AvoidsOne(depends, tags0, tags, tags', t);
      ApplyOne(depends, tags0, tags', order', t);
      MoveOne(todo, tags', t);
      tags', order', todo := tags' + {t}, order' + [t], todo - {t};
    }
  }

  // ----- load_all and the loop together -----

  /** Of two upgrades that were applied, the first was declared to come before the second, by either of them. */
  predicate Declares(files: map<Tag, Declared>, first: Tag, second: Tag) {
    second in files && first in files && (first in files[second].depends || second in files[first].forward)
  }

  /** Upgrade t is declared to come after one of the set s. */
  ghost predicate Waits(files: map<Tag, Declared>, t: Tag, s: set<Tag>) {
    exists u :: u in s && Declares(files, u, t)
  }

  /** A set of missing upgrades each of which is declared to come after another one of them, or after itself. */
  ghost predicate Deadlocked(files: map<Tag, Declared>, tags0: set<Tag>, s: set<Tag>) {
    s != {} && s <= files.Keys - tags0 && forall t {:trigger Waits(files, t, s)} | t in s :: Waits(files, t, s)
  }

  ghost predicate AllResolved(files: map<Tag, Declared>, depends: map<Tag, set<Tag>>) {
    depends.Keys == files.Keys && forall t | t in files :: depends[t] == Resolved(files, t)
  }

  lemma WaitsIff(files: map<Tag, Declared>, t: Tag, s: set<Tag>)
    requires t in files && s <= files.Keys
    ensures Waits(files, t, s) <==> Resolved(files, t) * s != {}
  {
    if Waits(files, t, s) {
      var u :| u in s && Declares(files, u, t);
      assert u in Resolved(files, t) * s;
    }
    if Resolved(files, t) * s != {} {
      var u := Sets.Pick(Resolved(files, t) * s);
      assert u in s && Declares(files, u, t);
    }
  }

  lemma DeadlockedIffStuck(files: map<Tag, Declared>, depends: map<Tag, set<Tag>>, tags0: set<Tag>, s: set<Tag>)
    requires AllResolved(files, depends)
    ensures Deadlocked(files, tags0, s) <==> Stuck(depends, tags0, s)
  {
    if s <= files.Keys {
      forall t | t in s
        ensures Waits(files, t, s) <==> depends[t] * s != {}
      {
        WaitsIff(files, t, s);
      }
    }
  }

  lemma DeadlockIffStuck(files: map<Tag, Declared>, depends: map<Tag, set<Tag>>, tags0: set<Tag>)
    requires AllResolved(files, depends)
    ensures (exists s :: Deadlocked(files, tags0, s)) <==> exists s :: Stuck(depends, tags0, s)
  {
    forall s
      ensures Deadlocked(files, tags0, s) <==> Stuck(depends, tags0, s)
    {
      DeadlockedIffStuck(files, depends, tags0, s);
    }
  }

  /** What an upgrade depends on and is applied comes before it. */
  lemma DependencyFirst(depends: map<Tag, set<Tag>>, tags0: set<Tag>, tags: set<Tag>, order: seq<Tag>, i: nat, j: nat)
    requires Applied(depends, tags0, tags, order) && i < |order| && j < |order| && order[j] in depends
    requires order[i] in depends[order[j]]
    ensures i < j
  {
    assert ReadyAt(depends, tags0, order, j) && order[i] in Elements(order);
    var k :| 0 <= k < j && order[k] == order[i];
    assert i >= k || Differ(order, i, k);
    assert k >= i || Differ(order, k, i);
  }

  /** Each upgrade that was applied is missing in tags0 and comes after all that it is declared to come after, by its
      own file or by theirs; and all that are missing were applied, unless some are declared to come after each
      other. */
  ghost predicate AsDeclared(files: map<Tag, Declared>, tags0: set<Tag>, ok: bool, tags: set<Tag>, order: seq<Tag>) {
    && (forall i, j | 0 <= i < |order| && 0 <= j < |order| && Declares(files, order[i], order[j]) :: i < j)
    && (forall t | t in order :: t in files && t !in tags0) && tags == tags0 + (set t | t in order)
    && (ok ==> tags == tags0 + files.Keys)
    && (!ok <==> exists s :: Deadlocked(files, tags0, s))
  }

  lemma MigratedAsDeclared(files: map<Tag, Declared>, depends: map<Tag, set<Tag>>, tags0: set<Tag>, ok: bool,
                           tags: set<Tag>, order: seq<Tag>)
    requires AllResolved(files, depends) && Applied(depends, tags0, tags, order)
    requires (ok ==> tags == tags0 + depends.Keys) && (!ok <==> exists s :: Stuck(depends, tags0, s))
    ensures AsDeclared(files, tags0, ok, tags, order)
  {
    DeadlockIffStuck(files, depends, tags0);
    forall i, j | 0 <= i < |order| && 0 <= j < |order| && Declares(files, order[i], order[j])
      ensures i < j
    {
      DependencyFirst(depends, tags0, tags, order, i, j);
    }
    assert forall t | t in order :: t in Elements(order);
  }

  /** Upgrading a checkpoint with given tags; nothing is done if a file mentions a tag that does not exist. */
  method Upgrade(files: map<Tag, Declared>, tags0: set<Tag>)
    returns (known: bool, ok: bool, tags: set<Tag>, order: seq<Tag>)
    ensures known <==> Known(files)
    ensures if known then AsDeclared(files, tags0, ok, tags, order) else !ok && tags == tags0 && order == []
  {
    var depends;
    known, depends := Resolve(files);
    if !known {
      return known, false, tags0, [];
    }
    ok, tags, order := Migrate(depends, tags0);
    MigratedAsDeclared(files, depends, tags0, ok, tags, order);
  }
}
