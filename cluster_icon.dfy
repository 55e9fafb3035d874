/**
 * The cluster icon: the warning-event badge it shows over a cluster, the
 * flags it renders with, and the event count it keeps from the broadcasts
 * it subscribes to.
 */
module ClusterIcon {
  import opened Wrappers
  import opened Decimal
  import opened Workspaces

  const ChannelPrefix := "cluster-warning-event-count:"

  /** The broadcast channel carrying a cluster's warning-event count. */
  function EventCountBroadcast(clusterId: string): (channel: string)
    ensures |channel| == |ChannelPrefix| + |clusterId|
    ensures channel[..|ChannelPrefix|] == ChannelPrefix
    ensures channel[|ChannelPrefix|..] == clusterId
  {
    ChannelPrefix + clusterId
  }

  /** Two clusters never share a channel. */
  lemma ChannelsDistinct(a: string, b: string)
    requires a != b
    ensures EventCountBroadcast(a) != EventCountBroadcast(b)
  {
    assert EventCountBroadcast(a)[|ChannelPrefix|..] != EventCountBroadcast(b)[|ChannelPrefix|..];
  }

  /**
   * isActive: whether the cluster's workspace has it as its active cluster.
   * None when the workspace does not exist, where the getter throws.
   */
  function IsActive(store: WorkspaceStore, cluster: Cluster): (r: Option<bool>)
    ensures r.None? <==> cluster.workspace !in store
    ensures r == Some(true) <==>
            cluster.workspace in store && store[cluster.workspace].activeClusterId == Some(cluster.id)
  {
    if cluster.workspace !in store then None
    else Some(store[cluster.workspace].activeClusterId == Some(cluster.id))
  }

  /** The "interactive" class: the explicit prop, else whether there is a click handler. */
  function Interactive(interactive: Option<bool>, hasOnClick: bool): (r: bool)
    ensures interactive.Some? ==> r == interactive.value
    ensures interactive.None? ==> r == hasOnClick
  {
    match interactive
    case Some(b) => b
    case None => hasOnClick
  }

  /** showTooltip defaults to true: the icon's element id, or none. */
  function TooltipTarget(showTooltip: Option<bool>, clusterId: string): (r: Option<string>)
    ensures r.Some? <==> showTooltip != Some(false)
    ensures r.Some? ==> r.value == "cluster-icon-" + clusterId
  {
    if showTooltip.GetOr(true) then Some("cluster-icon-" + clusterId) else None
  }

  /** The badge is shown when showErrors (default true) is on, there are events, and the cluster is online and not active. */
  predicate ShowsErrorBadge(showErrors: Option<bool>, eventCount: int, isActive: bool, online: bool) {
    showErrors.GetOr(true) && eventCount > 0 && !isActive && online
  }

  /** Math.ceil(n / 1000) for a whole number n. */
  function Thousands(n: nat): (k: nat)
    ensures (k - 1) * 1000 < n <= k * 1000
  {
    (n + 999) / 1000
  }

  /**
   * The badge label: the count itself below 1000, otherwise the number of
   * thousands rounded up, followed by "k+".
   */
  function Label(count: nat): (text: string)
    ensures count < 1000 ==> Canonical(text) && DigitsValue(text) == count
    ensures count >= 1000 ==>
              && |text| > 2 && text[|text| - 2..] == "k+"
              && Canonical(text[..|text| - 2])
              && var k := DigitsValue(text[..|text| - 2]);
                 (k - 1) * 1000 < count <= k * 1000
  {
    if count >= 1000 then
      var k := Thousands(count);
      NatToStringRoundTrip(k);
      var text := NatToString(k) + "k+";
      assert text[..|text| - 2] == NatToString(k);
      text
    else
      NatToStringRoundTrip(count);
      NatToString(count)
  }

  lemma LabelExamples()
    ensures Label(7) == "7" && Label(999) == "999"
    ensures Label(1000) == "1k+" && Label(1001) == "2k+" && Label(12345) == "13k+"
  {
    assert NatToString(9) == "9";
    assert NatToString(99) == "99";
    assert NatToString(1) == "1" && NatToString(2) == "2" && NatToString(13) == "13";
  }

  /** The badge the icon renders for a cluster: its label, or nothing. */
  function ErrorBadge(showErrors: Option<bool>, eventCount: int, isActive: bool, online: bool): (r: Option<string>)
    ensures r.Some? <==> showErrors != Some(false) && eventCount > 0 && !isActive && online
    ensures r.Some? ==> r.value == Label(eventCount)
  {
    if ShowsErrorBadge(showErrors, eventCount, isActive, online) then Some(Label(eventCount)) else None
  }

  /** The count after a series of broadcasts: the last one, or the initial 0. */
  function LastCount(counts: seq<int>): int {
    if counts == [] then 0 else counts[|counts| - 1]
  }

  /** Earlier broadcasts are forgotten once a later one arrives. */
  lemma LastWriteWins(earlier: seq<int>, later: seq<int>)
    requires later != []
    ensures LastCount(earlier + later) == LastCount(later)
  {
    assert (earlier + later)[|earlier + later| - 1] == later[|later| - 1];
  }

  class ClusterIcon {
    var eventCount: int
    /** Every count received over the channel, oldest first. */
    ghost var received: seq<int>

    ghost predicate Valid()
      reads this
    {
      eventCount == LastCount(received)
    }

    constructor ()
      ensures Valid() && received == [] && eventCount == 0
    {
      eventCount := 0;
      received := [];
    }

    /** The broadcast listener: overwrite the count with the received one. */
    method OnEventCount(count: int)
      requires Valid()
      modifies this
      ensures Valid() && received == old(received) + [count]
      ensures eventCount == count
    {
      eventCount := count;
      received := received + [count];
    }
  }
}
