/**
 * `ReplicationPeerConfig`: the settings of one replication peer and the rule
 * that decides which tables are shipped to it.  Java's nullable references
 * are `Option`s; a table is its namespace and qualifier.
 */
module Replication {
  import opened Wrappers
  import opened Longs

  /** `TableName`, as far as the peer configuration looks at it. */
  datatype TableName = TableName(namespace: string, qualifier: string) {
    /** `getNamespaceAsString`. */
    function NamespaceAsString(): (r: string) {
      namespace
    }
  }

  /** Table names to the column families to replicate (`Map<TableName, ? extends Collection<String>>`). */
  type TableCFs = map<TableName, seq<string>>

  /** Every field of a peer configuration, as one value. */
  datatype PeerState = PeerState(
    clusterKey: Option<string>,
    replicationEndpointImpl: Option<string>,
    peerData: map<seq<bv8>, seq<bv8>>,
    configuration: map<string, string>,
    tableCFsMap: Option<TableCFs>,
    namespaces: Option<set<string>>,
    bandwidth: Long,
    replicateAllUserTables: bool,
    excludeTableCFsMap: Option<TableCFs>,
    excludeNamespaces: Option<set<string>>)

  /** A new configuration: replicate all user tables, no bandwidth limit, every collection null or empty. */
  const DEFAULT_STATE: PeerState :=
    PeerState(None, None, map[], map[], None, None, 0, true, None, None)

  /** A null set read as the empty set. */
  function OrEmpty(s: Option<set<string>>): (r: set<string>) {
    match s
    case None => {}
    case Some(x) => x
  }

  /** The keys of a map that may be null, read as no keys when it is. */
  function KeysOrEmpty(m: Option<TableCFs>): (r: set<TableName>) {
    match m
    case None => {}
    case Some(x) => x.Keys
  }

  /** One `name=value` entry of the `toString` rendering. */
  datatype Entry = Entry(name: string, value: string)

  class ReplicationPeerConfig {
    var clusterKey: Option<string>
    var replicationEndpointImpl: Option<string>
    var peerData: map<seq<bv8>, seq<bv8>>
    var configuration: map<string, string>
    var tableCFsMap: Option<TableCFs>
    var namespaces: Option<set<string>>
    var bandwidth: Long
    var replicateAllUserTables: bool
    var excludeTableCFsMap: Option<TableCFs>
    var excludeNamespaces: Option<set<string>>

    /** The configuration's fields as one value. */
    function State(): (r: PeerState)
      reads this
    {
      PeerState(clusterKey, replicationEndpointImpl, peerData, configuration, tableCFsMap, namespaces,
                bandwidth, replicateAllUserTables, excludeTableCFsMap, excludeNamespaces)
    }

    /** The field initialisers and the constructor: everything null or empty, all user tables replicated. */
    constructor()
      ensures State() == DEFAULT_STATE
    {
      clusterKey := None;
      replicationEndpointImpl := None;
      peerData := map[];
      configuration := map[];
      tableCFsMap := None;
      namespaces := None;
      bandwidth := 0;
      replicateAllUserTables := true;
      excludeTableCFsMap := None;
      excludeNamespaces := None;
    }

    function GetClusterKey(): (r: Option<string>) reads this { clusterKey }
    function GetReplicationEndpointImpl(): (r: Option<string>) reads this { replicationEndpointImpl }
    function GetPeerData(): (r: map<seq<bv8>, seq<bv8>>) reads this { peerData }
    function GetConfiguration(): (r: map<string, string>) reads this { configuration }
    function GetTableCFsMap(): (r: Option<TableCFs>) reads this { tableCFsMap }
    function GetNamespaces(): (r: Option<set<string>>) reads this { namespaces }
    function GetBandwidth(): (r: Long) reads this { bandwidth }
    function ReplicateAllUserTables(): (r: bool) reads this { replicateAllUserTables }
    function GetExcludeTableCFsMap(): (r: Option<TableCFs>) reads this { excludeTableCFsMap }
    function GetExcludeNamespaces(): (r: Option<set<string>>) reads this { excludeNamespaces }

    method SetClusterKey(clusterKey: Option<string>) returns (r: ReplicationPeerConfig)
      modifies this
      ensures r == this && GetClusterKey() == clusterKey
      ensures State() == old(State()).(clusterKey := clusterKey)
    {
      this.clusterKey := clusterKey;
      r := this;
    }

    method SetReplicationEndpointImpl(replicationEndpointImpl: Option<string>) returns (r: ReplicationPeerConfig)
      modifies this
      ensures r == this && GetReplicationEndpointImpl() == replicationEndpointImpl
      ensures State() == old(State()).(replicationEndpointImpl := replicationEndpointImpl)
    {
      this.replicationEndpointImpl := replicationEndpointImpl;
      r := this;
    }

    method SetTableCFsMap(tableCFsMap: Option<TableCFs>) returns (r: ReplicationPeerConfig)
      modifies this
      ensures r == this && GetTableCFsMap() == tableCFsMap
      ensures State() == old(State()).(tableCFsMap := tableCFsMap)
    {
      this.tableCFsMap := tableCFsMap;
      r := this;
    }

    method SetNamespaces(namespaces: Option<set<string>>) returns (r: ReplicationPeerConfig)
      modifies this
      ensures r == this && GetNamespaces() == namespaces
      ensures State() == old(State()).(namespaces := namespaces)
    {
      this.namespaces := namespaces;
      r := this;
    }

    method SetBandwidth(bandwidth: Long) returns (r: ReplicationPeerConfig)
      modifies this
      ensures r == this && GetBandwidth() == bandwidth
      ensures State() == old(State()).(bandwidth := bandwidth)
    {
      this.bandwidth := bandwidth;
      r := this;
    }

    method SetReplicateAllUserTables(replicateAllUserTables: bool) returns (r: ReplicationPeerConfig)
      modifies this
      ensures r == this && ReplicateAllUserTables() == replicateAllUserTables
      ensures State() == old(State()).(replicateAllUserTables := replicateAllUserTables)
    {
      this.replicateAllUserTables := replicateAllUserTables;
      r := this;
    }

    method SetExcludeTableCFsMap(tableCFsMap: Option<TableCFs>) returns (r: ReplicationPeerConfig)
      modifies this
      ensures r == this && GetExcludeTableCFsMap() == tableCFsMap
      ensures State() == old(State()).(excludeTableCFsMap := tableCFsMap)
    {
      this.excludeTableCFsMap := tableCFsMap;
      r := this;
    }

    method SetExcludeNamespaces(namespaces: Option<set<string>>) returns (r: ReplicationPeerConfig)
      modifies this
      ensures r == this && GetExcludeNamespaces() == namespaces
      ensures State() == old(State()).(excludeNamespaces := namespaces)
    {
      this.excludeNamespaces := namespaces;
      r := this;
    }

    /**
     * `needToReplicate`: replicating all user tables, a table is shipped
     * unless its namespace or the table itself is excluded; otherwise only
     * if its namespace or the table itself is listed.  A null collection
     * lists nothing.
     */
    function NeedToReplicate(table: TableName): (r: bool)
      reads this
      ensures replicateAllUserTables ==>
        (r <==> table.NamespaceAsString() !in OrEmpty(excludeNamespaces) && table !in KeysOrEmpty(excludeTableCFsMap))
      ensures !replicateAllUserTables ==>
        (r <==> table.NamespaceAsString() in OrEmpty(namespaces) || table in KeysOrEmpty(tableCFsMap))
    {
      if replicateAllUserTables then
        if excludeNamespaces.Some? && table.NamespaceAsString() in excludeNamespaces.value then false
        else if excludeTableCFsMap.Some? && table in excludeTableCFsMap.value then false
        else true
      else
        if namespaces.Some? && table.NamespaceAsString() in namespaces.value then true
        else if tableCFsMap.Some? && table in tableCFsMap.value then true
        else false
    }

    /**
     * The entries `toString` renders, in order: cluster key, endpoint, the
     * replicate-all flag, then the exclude collections when replicating all
     * user tables or the include collections otherwise (each only when not
     * null), and the bandwidth last.  The rendering of a Java set or map is
     * passed in.
     */
    function Entries(showSet: set<string> -> string, showMap: TableCFs -> string): (r: seq<Entry>)
      reads this
    {
      [Entry("clusterKey", ShowString(clusterKey)),
       Entry("replicationEndpointImpl", ShowString(replicationEndpointImpl)),
       Entry("replicateAllUserTables", ShowBool(replicateAllUserTables))]
      + Collections(showSet, showMap)
      + [Entry("bandwidth", ShowLong(bandwidth))]
    }

    /** The collection entries of `toString`: the exclude ones or the include ones, each only when not null. */
    function Collections(showSet: set<string> -> string, showMap: TableCFs -> string): (r: seq<Entry>)
      reads this
    {
      if replicateAllUserTables then
        (if excludeNamespaces.Some? then [Entry("excludeNamespaces", showSet(excludeNamespaces.value))] else [])
        + (if excludeTableCFsMap.Some? then [Entry("excludeTableCFsMap", showMap(excludeTableCFsMap.value))] else [])
      else
        (if namespaces.Some? then [Entry("namespaces", showSet(namespaces.value))] else [])
        + (if tableCFsMap.Some? then [Entry("tableCFs", showMap(tableCFsMap.value))] else [])
    }

    /** `toString`: appends the entries one by one to a builder. */
    method ToString(showSet: set<string> -> string, showMap: TableCFs -> string) returns (s: string)
      ensures s == Render(Entries(showSet, showMap))
    {
      ghost var shown: seq<Entry> := [];
      var builder := "";
      builder, shown := Append(builder, shown, Entry("clusterKey", ShowString(clusterKey)));
      builder, shown := Append(builder, shown, Entry("replicationEndpointImpl", ShowString(replicationEndpointImpl)));
      builder, shown := Append(builder, shown, Entry("replicateAllUserTables", ShowBool(replicateAllUserTables)));
      builder, shown := AppendCollections(builder, shown, showSet, showMap);
      var last := Entry("bandwidth", ShowLong(bandwidth));
      s := builder + Show(last);
      assert Entries(showSet, showMap) == shown + [last];
      RenderLast(shown, last);
    }

    /** The middle of `toString`: the exclude or the include collections that are not null. */
    method AppendCollections(builder: string, ghost shown: seq<Entry>,
                             showSet: set<string> -> string, showMap: TableCFs -> string)
      returns (builder': string, ghost shown': seq<Entry>)
      requires builder == Leading(shown)
      ensures shown' == shown + Collections(showSet, showMap) && builder' == Leading(shown')
    {
      builder', shown' := builder, shown;
      if replicateAllUserTables {
        if excludeNamespaces.Some? {
          builder', shown' := Append(builder', shown', Entry("excludeNamespaces", showSet(excludeNamespaces.value)));
        }
        if excludeTableCFsMap.Some? {
          builder', shown' := Append(builder', shown', Entry("excludeTableCFsMap", showMap(excludeTableCFsMap.value)));
        }
      } else {
        if namespaces.Some? {
          builder', shown' := Append(builder', shown', Entry("namespaces", showSet(namespaces.value)));
        }
        if tableCFsMap.Some? {
          builder', shown' := Append(builder', shown', Entry("tableCFs", showMap(tableCFsMap.value)));
        }
      }
    }
  }

  /** A new configuration ships every table. */
  lemma DefaultReplicatesEveryTable(c: ReplicationPeerConfig, table: TableName)
    requires c.State() == DEFAULT_STATE
    ensures c.NeedToReplicate(table)
  {
  }

  /** The names of some entries. */
  function Names(entries: seq<Entry>): (r: set<string>) {
    set e | e in entries :: e.name
  }

  /** `toString` renders the cluster key first and the bandwidth last. */
  lemma EntriesEnds(c: ReplicationPeerConfig, showSet: set<string> -> string, showMap: TableCFs -> string)
    ensures var entries := c.Entries(showSet, showMap);
            && entries[0] == Entry("clusterKey", ShowString(c.clusterKey))
            && entries[|entries| - 1] == Entry("bandwidth", ShowLong(c.bandwidth))
  {
  }

  /**
   * Which collections `toString` renders: the exclude ones only when
   * replicating all user tables, the include ones only when not, each only
   * when not null.
   */
  lemma EntriesChosen(c: ReplicationPeerConfig, showSet: set<string> -> string, showMap: TableCFs -> string)
    ensures var names := Names(c.Entries(showSet, showMap));
            && ("excludeNamespaces" in names <==> c.replicateAllUserTables && c.excludeNamespaces.Some?)
            && ("excludeTableCFsMap" in names <==> c.replicateAllUserTables && c.excludeTableCFsMap.Some?)
            && ("namespaces" in names <==> !c.replicateAllUserTables && c.namespaces.Some?)
            && ("tableCFs" in names <==> !c.replicateAllUserTables && c.tableCFsMap.Some?)
  {
    var head := [Entry("clusterKey", ShowString(c.clusterKey)),
                 Entry("replicationEndpointImpl", ShowString(c.replicationEndpointImpl)),
                 Entry("replicateAllUserTables", ShowBool(c.replicateAllUserTables))];
    var middle := c.Collections(showSet, showMap);
    var tail := [Entry("bandwidth", ShowLong(c.bandwidth))];
    NamesOfConcat(head + middle, tail);
    NamesOfConcat(head, middle);
    FixedNames(ShowString(c.clusterKey), ShowString(c.replicationEndpointImpl),
               ShowBool(c.replicateAllUserTables), ShowLong(c.bandwidth));
    CollectionsChosen(c, showSet, showMap);
    FixedNamesApart();
  }

  /** The entries every rendering has. */
  const FIXED_NAMES: set<string> := {"clusterKey", "replicationEndpointImpl", "replicateAllUserTables", "bandwidth"}

  /** The entries a rendering may have. */
  const COLLECTION_NAMES: set<string> := {"excludeNamespaces", "excludeTableCFsMap", "namespaces", "tableCFs"}

  /** The names of the entries every rendering has, whatever their values. */
  lemma FixedNames(key: string, endpoint: string, all: string, bandwidth: string)
    ensures Names([Entry("clusterKey", key), Entry("replicationEndpointImpl", endpoint),
                   Entry("replicateAllUserTables", all)]) + Names([Entry("bandwidth", bandwidth)])
            == FIXED_NAMES
  {
  }

  lemma FixedNamesApart()
    ensures FIXED_NAMES !! COLLECTION_NAMES
  {
  }

  lemma CollectionsChosen(c: ReplicationPeerConfig, showSet: set<string> -> string, showMap: TableCFs -> string)
    ensures var names := Names(c.Collections(showSet, showMap));
            && names <= COLLECTION_NAMES
            && ("excludeNamespaces" in names <==> c.replicateAllUserTables && c.excludeNamespaces.Some?)
            && ("excludeTableCFsMap" in names <==> c.replicateAllUserTables && c.excludeTableCFsMap.Some?)
            && ("namespaces" in names <==> !c.replicateAllUserTables && c.namespaces.Some?)
            && ("tableCFs" in names <==> !c.replicateAllUserTables && c.tableCFsMap.Some?)
  {
    var first, second;
    if c.replicateAllUserTables {
      first := if c.excludeNamespaces.Some? then [Entry("excludeNamespaces", showSet(c.excludeNamespaces.value))] else [];
      second := if c.excludeTableCFsMap.Some? then [Entry("excludeTableCFsMap", showMap(c.excludeTableCFsMap.value))] else [];
    } else {
      first := if c.namespaces.Some? then [Entry("namespaces", showSet(c.namespaces.value))] else [];
      second := if c.tableCFsMap.Some? then [Entry("tableCFs", showMap(c.tableCFsMap.value))] else [];
    }
    NamesOfConcat(first, second);
  }

  lemma NamesOfConcat(a: seq<Entry>, b: seq<Entry>)
    ensures Names(a + b) == Names(a) + Names(b)
  {
    assert forall e :: e in a + b <==> e in a || e in b;
  }

  /** The rendering of a configuration starts with its cluster key and ends with its bandwidth. */
  lemma ToStringShape(c: ReplicationPeerConfig, showSet: set<string> -> string, showMap: TableCFs -> string)
    ensures var s := Render(c.Entries(showSet, showMap));
            && "clusterKey=" + ShowString(c.clusterKey) <= s
            && s[|s| - |"bandwidth=" + ShowLong(c.bandwidth)|..] == "bandwidth=" + ShowLong(c.bandwidth)
  {
    var entries := c.Entries(showSet, showMap);
    EntriesEnds(c, showSet, showMap);
    RenderShape(entries);
  }

  /** A rendering starts with its first entry and ends with its last. */
  lemma RenderShape(entries: seq<Entry>)
    requires |entries| >= 1
    ensures Show(entries[0]) <= Render(entries)
    ensures var s, last := Render(entries), Show(entries[|entries| - 1]);
            s[|s| - |last|..] == last
  {
    var front := entries[..|entries| - 1];
    if |front| >= 1 {
      LeadingStartsWithFirst(front);
      assert front[0] == entries[0];
    }
  }

  lemma {:induction false} LeadingStartsWithFirst(entries: seq<Entry>)
    requires |entries| >= 1
    ensures Show(entries[0]) <= Leading(entries)
  {
    var front := entries[..|entries| - 1];
    if |front| >= 1 {
      LeadingStartsWithFirst(front);
      assert front[0] == entries[0];
    }
  }

  /** One `builder.append(name=).append(value).append(",")` step. */
  method Append(builder: string, ghost shown: seq<Entry>, e: Entry) returns (builder': string, ghost shown': seq<Entry>)
    requires builder == Leading(shown)
    ensures shown' == shown + [e] && builder' == Leading(shown')
  {
    builder' := builder + e.name + "=" + e.value + ",";
    shown' := shown + [e];
    assert shown'[..|shown|] == shown;
  }

  /** An entry as `name=value`. */
  function Show(e: Entry): (r: string) {
    e.name + "=" + e.value
  }

  /** Entries each followed by a comma. */
  function Leading(entries: seq<Entry>): (r: string) {
    if |entries| == 0 then ""
    else Leading(entries[..|entries| - 1]) + Show(entries[|entries| - 1]) + ","
  }

  /** Entries rendered as `name=value`, separated by commas. */
  function Render(entries: seq<Entry>): (r: string)
    requires |entries| >= 1
  {
    Leading(entries[..|entries| - 1]) + Show(entries[|entries| - 1])
  }

  /** Rendering ends with the last entry, after the others each followed by a comma. */
  lemma RenderLast(entries: seq<Entry>, last: Entry)
    ensures Render(entries + [last]) == Leading(entries) + Show(last)
  {
    assert (entries + [last])[..|entries|] == entries;
  }

  /** `StringBuilder.append(String)`: a null string appends "null". */
  function ShowString(s: Option<string>): (r: string) {
    match s
    case None => "null"
    case Some(x) => x
  }

  /** `StringBuilder.append(boolean)`. */
  function ShowBool(b: bool): (r: string) {
    if b then "true" else "false"
  }

  /** `StringBuilder.append(long)`: the decimal digits, with a minus sign when negative. */
  function ShowLong(n: Long): (r: string) {
    if n < 0 then "-" + ShowNat(-(n as int)) else ShowNat(n)
  }

  function ShowNat(n: nat): (r: string)
    ensures |r| >= 1
  {
    var digit := ['0', '1', '2', '3', '4', '5', '6', '7', '8', '9'][n % 10];
    if n < 10 then [digit] else ShowNat(n / 10) + [digit]
  }
}
