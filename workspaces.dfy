/**
 * The parts of the workspace and cluster stores that the cluster icon and
 * the landing page read. The stores themselves are not part of this model:
 * the workspace store is a map from id to workspace, the cluster store a
 * list of clusters.
 */
module Workspaces {
  import opened Wrappers

  type WorkspaceId = string

  datatype Workspace = Workspace(id: WorkspaceId, name: string, isManaged: bool, activeClusterId: Option<string>)

  datatype Cluster = Cluster(id: string, workspace: WorkspaceId, name: string, online: bool)

  /** workspaceStore.getById: absent ids are missing keys. */
  type WorkspaceStore = map<WorkspaceId, Workspace>

  /** clusterStore.getByWorkspaceId: the clusters of one workspace, in store order. */
  function ClustersOf(clusters: seq<Cluster>, workspace: WorkspaceId): (r: seq<Cluster>)
    ensures forall c :: c in r <==> c in clusters && c.workspace == workspace
    ensures |r| <= |clusters|
  {
    if clusters == [] then []
    else if clusters[0].workspace == workspace then [clusters[0]] + ClustersOf(clusters[1..], workspace)
    else ClustersOf(clusters[1..], workspace)
  }
}
