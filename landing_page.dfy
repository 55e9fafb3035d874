/**
 * The landing page's bookkeeping of the workspaces a user has already seen:
 * on mount it drops stored ids of workspaces that no longer exist, decides
 * whether to greet the user, and stores the current workspace as seen.
 * The persisted list is an input and an output here, and the greeting
 * notification is a returned flag.
 */
module LandingPage {
  import opened Workspaces

  /** Set.prototype.add on a Set kept as its insertion-ordered list. */
  function Add(ids: seq<WorkspaceId>, id: WorkspaceId): (r: seq<WorkspaceId>)
    ensures forall x :: x in r <==> x in ids || x == id
    ensures |ids| <= |r| <= |ids| + 1 && r[..|ids|] == ids
    ensures NoDuplicates(ids) ==> NoDuplicates(r)
  {
    if id in ids then ids else ids + [id]
  }

  /**
   * new Set(stored.filter(id => workspaceStore.getById(id))): the stored
   * ids of existing workspaces, each once, in the order they first appear.
   */
  function SeenWorkspaces(stored: seq<WorkspaceId>, workspaces: WorkspaceStore): (r: seq<WorkspaceId>)
    ensures |r| <= |stored|
    ensures forall id :: id in r ==> id in workspaces
    decreases |stored|
  {
    if stored == [] then []
    else
      var seen := SeenWorkspaces(stored[..|stored| - 1], workspaces);
      var id := stored[|stored| - 1];
      if id in workspaces then Add(seen, id) else seen
  }

  predicate NoDuplicates(s: seq<WorkspaceId>) {
    forall i, j :: 0 <= i < j < |s| ==> s[i] != s[j]
  }

  /** The position of the first occurrence of `x` in `s`. */
  function FirstIndex(s: seq<WorkspaceId>, x: WorkspaceId): (k: nat)
    requires x in s
    ensures k < |s| && s[k] == x && x !in s[..k]
  {
    if s[0] == x then 0
    else
      var k := FirstIndex(s[1..], x);
      assert s[1..][..k] == s[1..k + 1];
      1 + k
  }

  /** The welcome notice: a workspace not seen before, with no clusters, that is not managed. */
  function ShowsWelcome(seen: seq<WorkspaceId>, current: Workspace, clusters: seq<Cluster>): (r: bool)
    ensures r <==> current.id !in seen && (forall c :: c in clusters ==> c.workspace != current.id) &&
                   !current.isManaged
  {
    var none := |ClustersOf(clusters, current.id)| == 0;
    assert !none ==> ClustersOf(clusters, current.id)[0] in clusters;
    current.id !in seen && none && !current.isManaged
  }

  lemma {:induction false} SeenMembers(stored: seq<WorkspaceId>, workspaces: WorkspaceStore)
    ensures forall id :: id in SeenWorkspaces(stored, workspaces) <==> id in stored && id in workspaces
    decreases |stored|
  {
    if stored != [] {
      var prefix := stored[..|stored| - 1];
      SeenMembers(prefix, workspaces);
      assert stored == prefix + [stored[|stored| - 1]];
    }
  }

  lemma {:induction false} SeenNoDuplicates(stored: seq<WorkspaceId>, workspaces: WorkspaceStore)
    ensures NoDuplicates(SeenWorkspaces(stored, workspaces))
    decreases |stored|
  {
    if stored != [] {
      SeenNoDuplicates(stored[..|stored| - 1], workspaces);
    }
  }

  lemma FirstIndexInPrefix(s: seq<WorkspaceId>, x: WorkspaceId, n: nat)
    requires n <= |s| && x in s[..n]
    ensures x in s && FirstIndex(s[..n], x) == FirstIndex(s, x)
  {
    var k := FirstIndex(s[..n], x);
    assert s[..n][..k] == s[..k];
  }

  /** Every id of `ids` occurs in `s`, and they come in the order of their first occurrences there. */
  predicate InFirstOccurrenceOrder(ids: seq<WorkspaceId>, s: seq<WorkspaceId>) {
    (forall p :: 0 <= p < |ids| ==> ids[p] in s) &&
    forall p, q :: 0 <= p < q < |ids| ==> FirstIndex(s, ids[p]) < FirstIndex(s, ids[q])
  }

  /** Surviving ids keep the order of their first occurrence in the stored list. */
  lemma {:induction false} SeenKeepsOrder(stored: seq<WorkspaceId>, workspaces: WorkspaceStore)
    ensures InFirstOccurrenceOrder(SeenWorkspaces(stored, workspaces), stored)
    decreases |stored|
  {
    if stored != [] {
      var n := |stored| - 1;
      var prefix := stored[..n];
      var id := stored[n];
      var before := SeenWorkspaces(prefix, workspaces);
      var seen := SeenWorkspaces(stored, workspaces);
      SeenKeepsOrder(prefix, workspaces);
      assert InFirstOccurrenceOrder(before, prefix);
      SeenMembers(prefix, workspaces);
      assert prefix == stored[..n];
      forall x | x in before
        ensures x in stored && FirstIndex(prefix, x) == FirstIndex(stored, x) && FirstIndex(stored, x) < n
      {
        FirstIndexInPrefix(stored, x, n);
      }
      if id in workspaces && id !in before {
        assert id !in prefix;
        assert FirstIndex(stored, id) == n;
        assert seen == before + [id];
        forall p, q | 0 <= p < q < |seen|
          ensures FirstIndex(stored, seen[p]) < FirstIndex(stored, seen[q])
        {
          assert seen[p] == before[p] && before[p] in before;
          if q < |before| {
            assert seen[q] == before[q] && before[q] in before;
            assert FirstIndex(prefix, before[p]) < FirstIndex(prefix, before[q]);
          }
        }
      } else {
        assert seen == before;
        forall p, q | 0 <= p < q < |seen|
          ensures FirstIndex(stored, seen[p]) < FirstIndex(stored, seen[q])
        {
          assert before[p] in before && before[q] in before;
          assert FirstIndex(prefix, before[p]) < FirstIndex(prefix, before[q]);
        }
      }
    }
  }

  /** Dropping the last id of a duplicate-free list leaves a duplicate-free list without it. */
  lemma DistinctInit(s: seq<WorkspaceId>)
    requires s != [] && NoDuplicates(s)
    ensures NoDuplicates(s[..|s| - 1]) && s[|s| - 1] !in s[..|s| - 1]
    ensures forall id :: id in s[..|s| - 1] ==> id in s
  {
    var prefix := s[..|s| - 1];
    forall k | 0 <= k < |prefix|
      ensures prefix[k] == s[k] && prefix[k] != s[|s| - 1]
    {
    }
  }

  /** A list of existing, distinct ids survives the filter unchanged. */
  lemma {:induction false} SeenOfSeen(s: seq<WorkspaceId>, workspaces: WorkspaceStore)
    requires NoDuplicates(s)
    requires forall id :: id in s ==> id in workspaces
    ensures SeenWorkspaces(s, workspaces) == s
    decreases |s|
  {
    if s != [] {
      var prefix := s[..|s| - 1];
      var last := s[|s| - 1];
      DistinctInit(s);
      SeenOfSeen(prefix, workspaces);
      assert SeenWorkspaces(s, workspaces) == Add(prefix, last) == prefix + [last];
      assert s == prefix + [last];
    }
  }

  /**
   * componentDidMount: the stored list it was given, the existing
   * workspaces, the current workspace and all clusters; it returns whether
   * to greet the user and the list to store back.
   */
  method ComponentDidMount(stored: seq<WorkspaceId>, workspaces: WorkspaceStore, current: Workspace,
                           clusters: seq<Cluster>)
    returns (welcome: bool, newStored: seq<WorkspaceId>)
    ensures welcome <==> ShowsWelcome(SeenWorkspaces(stored, workspaces), current, clusters)
    ensures welcome <==> !(current.id in stored && current.id in workspaces) &&
                         (forall c :: c in clusters ==> c.workspace != current.id) && !current.isManaged
    ensures newStored == Add(SeenWorkspaces(stored, workspaces), current.id)
    ensures current.id in newStored && NoDuplicates(newStored)
    ensures forall id :: id in newStored <==> (id in stored && id in workspaces) || id == current.id
  {
    var seenWorkspaces: seq<WorkspaceId> := [];
    var i := 0;
    while i < |stored|
      invariant 0 <= i <= |stored|
      invariant seenWorkspaces == SeenWorkspaces(stored[..i], workspaces)
    {
      assert stored[..i + 1][..i] == stored[..i];
      if stored[i] in workspaces && stored[i] !in seenWorkspaces {
        seenWorkspaces := seenWorkspaces + [stored[i]];
      }
      i := i + 1;
    }
    assert stored[..i] == stored;
    SeenMembers(stored, workspaces);
    SeenNoDuplicates(stored, workspaces);
    welcome := current.id !in seenWorkspaces && |ClustersOf(clusters, current.id)| == 0 && !current.isManaged;
    newStored := Add(seenWorkspaces, current.id);
  }

  /** Mounting again with nothing else changed greets no one and stores the same list. */
  lemma RemountIsQuiet(stored: seq<WorkspaceId>, workspaces: WorkspaceStore, current: Workspace,
                       clusters: seq<Cluster>)
    requires current.id in workspaces
    ensures var once := Add(SeenWorkspaces(stored, workspaces), current.id);
            && !ShowsWelcome(SeenWorkspaces(once, workspaces), current, clusters)
            && Add(SeenWorkspaces(once, workspaces), current.id) == once
  {
    var seen := SeenWorkspaces(stored, workspaces);
    SeenMembers(stored, workspaces);
    SeenNoDuplicates(stored, workspaces);
    var once := Add(seen, current.id);
    SeenOfSeen(once, workspaces);
  }
}
