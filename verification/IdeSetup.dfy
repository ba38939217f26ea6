/** The adapter that registers a server entry in a client's configuration file: the merge inside the replacement. */
module IdeSetup {
  import opened Wrappers
  import opened AtomicWrite
  import opened ConfigMerge

  function MergedText(c: Codec, text: string, name: string, entry: Json): Option<string> {
    match Merge(c, text, name, entry)
    case Ok(merged) => Some(merged)
    case Err(_) => None
  }

  /** Whether a run returns Ok, for every choice of failing steps; an Ok leaves a settled file, a run on a settled file
      changes nothing, not even in passing, and a run without a target creates one with this entry and nothing else. */
  method ApplyEntry(d: Disk, target: Name, c: Codec, name: string, entry: Json, plan: ApplyPlan)
    returns (r: Result<ApplyOutcome, WriteError>)
    requires Faithful(c)
    modifies d
    ensures r.Ok? <==>
              && (target in old(d.files) ==> plan.read)
              && Mergeable(c, Existing(old(d.files), target))
              && (Settled(c, Existing(old(d.files), target), name, entry)
                  || (&& plan.makeDirectory && plan.write.Done? && plan.toTarget
                      && (target in old(d.files) ==> plan.toBak)))
    ensures r.Ok? ==> Settled(c, Existing(d.files, target), name, entry)
    ensures Settled(c, Existing(old(d.files), target), name, entry) && (target in old(d.files) ==> plan.read) ==>
              r == Ok(NoChange) && d.files == old(d.files) && d.history == old(d.history)
    ensures target !in old(d.files) && c.blank("") && r.Ok? ==>
              && r.value == Created && target in d.files
              && c.parse(d.files[target]) == Some(Object(map["mcpServers" := Object(map[name := entry])]))
    ensures Careful(old(d.files), old(d.history), d.files, d.history, target)
  {
    hide Careful, Allowed, Merge, Faithful, Settled, Mergeable;
    ghost var before := Existing(d.files, target);
    UnchangedIffSettled(c, before, name, entry);
    if target !in d.files && c.blank("") {
      MergeIntoBlank(c, "", name, entry);
    }
    r := Apply(d, target, text => MergedText(c, text, name, entry), plan);
  }

  /** Applying the same entry a second time after an Ok touches nothing. */
  method ApplyTwice(d: Disk, target: Name, c: Codec, name: string, entry: Json, first: ApplyPlan, second: ApplyPlan)
    returns (r: Result<ApplyOutcome, WriteError>, again: Result<ApplyOutcome, WriteError>, ghost between: Files)
    requires Faithful(c) && second.read
    modifies d
    ensures r.Ok? ==> again == Ok(NoChange) && d.files == between
    ensures r.Ok? ==> Settled(c, Existing(d.files, target), name, entry)
  {
    hide Careful, Settled, Faithful;
    r := ApplyEntry(d, target, c, name, entry, first);
    between := d.files;
    again := ApplyEntry(d, target, c, name, entry, second);
  }
}
