/** Merging a server entry into a client's JSON configuration. */
module ConfigMerge {
  import opened Wrappers

  datatype Json = Atom(text: string) | Array(items: seq<Json>) | Object(fields: map<string, Json>)

  datatype MergeError = NotJson | RootNotObject | ServersNotObject

  /** The JSON library: a parser, a pretty-printer, and the test for a text of white space only. */
  datatype Codec = Codec(parse: string -> Option<Json>, pretty: Json -> string, blank: string -> bool)

  const SERVERS := "mcpServers"
  const LEGACY := "obelion"
  const CURRENT := "amore"

  /** What is printed is not blank and is read back as the same tree. */
  ghost predicate Faithful(c: Codec) {
    forall j {:trigger c.pretty(j)} :: c.parse(c.pretty(j) + "\n") == Some(j) && !c.blank(c.pretty(j) + "\n")
  }

  function Parsed(c: Codec, text: string): Option<Json> {
    if c.blank(text) then Some(Object(map[])) else c.parse(text)
  }

  /** The server table of a configuration, empty when the configuration has none. */
  function Servers(root: Json): Option<map<string, Json>> {
    if !root.Object? then None
    else if SERVERS !in root.fields then Some(map[])
    else if root.fields[SERVERS].Object? then Some(root.fields[SERVERS].fields)
    else None
  }

  /** The servers that a merge starts from: registering the current name drops the legacy one. */
  function Cleaned(servers: map<string, Json>, name: string): map<string, Json> {
    if name == CURRENT then servers - {LEGACY} else servers
  }

  predicate Registered(servers: map<string, Json>, name: string, entry: Json) {
    name in Cleaned(servers, name) && Cleaned(servers, name)[name] == entry
  }

  method MergeMcpServers(c: Codec, existing: string, name: string, entry: Json) returns (r: Result<string, MergeError>)
    ensures r == Merge(c, existing, name, entry)
    ensures r.Ok? <==> Mergeable(c, existing)
  {
    var root: Json;
    if c.blank(existing) {
      root := Object(map[]);
    } else {
      var parsed := c.parse(existing);
      if parsed.None? {
        return Err(NotJson);
      }
      root := parsed.value;
    }
    if !root.Object? {
      return Err(RootNotObject);
    }
    var fields := root.fields;
    if SERVERS !in fields {
      fields := fields[SERVERS := Object(map[])];
    }
    if !fields[SERVERS].Object? {
      return Err(ServersNotObject);
    }
    var servers := fields[SERVERS].fields;
    if name == CURRENT {
      servers := servers - {LEGACY};
    }
    if name in servers && servers[name] == entry {
      return Ok(existing);
    }
    servers := servers[name := entry];
    assert fields[SERVERS := Object(servers)] == root.fields[SERVERS := Object(servers)];
    r := Ok(c.pretty(Object(fields[SERVERS := Object(servers)])) + "\n");
  }

  /** An entry already there leaves the text as it is; otherwise the tree is changed in one place and printed. */
  function Merge(c: Codec, existing: string, name: string, entry: Json): (r: Result<string, MergeError>)
    ensures r.Ok? <==> Mergeable(c, existing)
    ensures r == Err(NotJson) <==> !c.blank(existing) && c.parse(existing) == None
    ensures r == Err(RootNotObject) <==>
              !c.blank(existing) && c.parse(existing).Some? && !c.parse(existing).value.Object?
  {
    var root := Parsed(c, existing);
    if root.None? then Err(NotJson)
    else if !root.value.Object? then Err(RootNotObject)
    else
      match Servers(root.value)
      case None => Err(ServersNotObject)
      case Some(servers) =>
        if Registered(servers, name, entry) then Ok(existing)
        else
          var table := Object(Cleaned(servers, name)[name := entry]);
          Ok(c.pretty(Object(root.value.fields[SERVERS := table])) + "\n")
  }

  /** A text of white space only, or a configuration whose server table, if it has one, is an object. */
  predicate Mergeable(c: Codec, text: string) {
    c.blank(text) ||
    match c.parse(text)
    case Some(Object(fields)) => "mcpServers" in fields ==> fields["mcpServers"].Object?
    case _ => false
  }

  // What a text says: its top-level keys and, by name, its servers; nothing for a blank text or a missing table.
  ghost predicate Says(c: Codec, text: string, fields: map<string, Json>, servers: map<string, Json>) {
    && (if c.blank(text) then fields == map[] else c.parse(text) == Some(Object(fields)))
    && (if "mcpServers" in fields then fields["mcpServers"] == Object(servers) else servers == map[])
  }

  /** The result is a configuration that holds the entry; every other top-level key and every server but the legacy one
      keeps its value. */
  lemma MergePreserves(c: Codec, existing: string, name: string, entry: Json, fields: map<string, Json>,
                       servers: map<string, Json>)
    returns (fields': map<string, Json>, servers': map<string, Json>)
    requires Faithful(c) && Merge(c, existing, name, entry).Ok? && Says(c, existing, fields, servers)
    ensures var merged := Merge(c, existing, name, entry).value;
            !c.blank(merged) && "mcpServers" in fields' && Says(c, merged, fields', servers')
    ensures name in servers' && servers'[name] == entry
    ensures fields' - {"mcpServers"} == fields - {"mcpServers"}
    ensures servers' == if name in servers && servers[name] == entry then servers
                        else (if name == "amore" then servers - {"obelion"} else servers)[name := entry]
    ensures Merge(c, existing, name, entry).value == existing <==> name in servers && servers[name] == entry
  {
    if Registered(servers, name, entry) {
      fields', servers' := fields, servers;
    } else {
      servers' := Cleaned(servers, name)[name := entry];
      fields' := fields[SERVERS := Object(servers')];
      assert fields' - {SERVERS} == fields - {SERVERS};
    }
  }

  /** Merging into a blank text gives a configuration with the one server and nothing else. */
  lemma MergeIntoBlank(c: Codec, blank: string, name: string, entry: Json)
    requires Faithful(c) && c.blank(blank)
    ensures var r := Merge(c, blank, name, entry);
            r.Ok? && r.value != blank
            && c.parse(r.value) == Some(Object(map["mcpServers" := Object(map[name := entry])]))
  {
    var fields, servers := MergePreserves(c, blank, name, entry, map[], map[]);
    assert fields == map[SERVERS := Object(servers)] by {
      assert fields - {SERVERS} == map[];
    }
    assert servers == map[name := entry];
  }

  /** The text is a configuration whose server table has the entry. */
  ghost predicate Settled(c: Codec, text: string, name: string, entry: Json) {
    && !c.blank(text)
    && exists fields, servers :: Says(c, text, fields, servers) && name in servers && servers[name] == entry
  }

  /** A merge leaves a text as it is exactly when the entry is there already, and always leaves such a text. */
  lemma UnchangedIffSettled(c: Codec, existing: string, name: string, entry: Json)
    requires Faithful(c)
    ensures Merge(c, existing, name, entry) == Ok(existing) <==> Settled(c, existing, name, entry)
    ensures Merge(c, existing, name, entry).Ok? ==> Settled(c, Merge(c, existing, name, entry).value, name, entry)
  {
    if Merge(c, existing, name, entry).Ok? {
      var fields := if c.blank(existing) then map[] else c.parse(existing).value.fields;
      var servers := if "mcpServers" in fields then fields["mcpServers"].fields else map[];
      var _, _ := MergePreserves(c, existing, name, entry, fields, servers);
    }
  }

  /** Running the merge again changes nothing. */
  lemma MergeIdempotent(c: Codec, existing: string, name: string, entry: Json)
    requires Faithful(c) && Merge(c, existing, name, entry).Ok?
    ensures var once := Merge(c, existing, name, entry).value;
            Merge(c, once, name, entry) == Ok(once)
  {
    UnchangedIffSettled(c, existing, name, entry);
    UnchangedIffSettled(c, Merge(c, existing, name, entry).value, name, entry);
  }

  /** The legacy entry survives a merge exactly when the current one was already registered as wanted. */
  lemma LegacySurvivesIff(c: Codec, existing: string, entry: Json, fields: map<string, Json>,
                          servers: map<string, Json>, fields': map<string, Json>, servers': map<string, Json>)
    requires Faithful(c) && Merge(c, existing, "amore", entry).Ok? && Says(c, existing, fields, servers)
    requires Says(c, Merge(c, existing, "amore", entry).value, fields', servers')
    ensures "obelion" in servers' <==>
              "obelion" in servers && "amore" in servers && servers["amore"] == entry
  {
    assert "amore" != "obelion" by {
      assert "amore"[0] != "obelion"[0];
    }
    var _, _ := MergePreserves(c, existing, "amore", entry, fields, servers);
  }
}
