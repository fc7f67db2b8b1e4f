/** The snapshotter's `dump_snapshot`: the register state, then the mapping records. */
module SnapshotDump {
  import opened Bytes
  import opened SnapshotFormat
  import opened MapsParser
  import opened MappingsReader

  /** The file after a normal return; None where a maps line is fatal. */
  method DumpSnapshot(state: ProcessState, iter: MapsIter, kernel: Kernel) returns (written: Option<seq<byte>>)
    requires iter.Valid()
    modifies iter, iter.entry, iter.entry.path, kernel
    ensures written.Some? <==> old(iter.Pending()).Some?
    ensures written.Some? ==>
              var records := RecordsFrom(state.Mode(), kernel.remote, old(iter.Pending()).value, old(kernel.calls));
              written.value == Serialize(Snapshot(state, records))
  {
    ghost var head, pending, calls := EncodeState(state), iter.Pending(), kernel.calls;
    var file := new OutFile();
    file.Write(EncodeState(state));
    assert file.contents == head;
    var dumped := DumpMappingsContent(state.Mode(), iter, kernel, file);
    if dumped.None? {
      return None;
    }
    ghost var records := RecordsFrom(state.Mode(), kernel.remote, pending.value, calls);
    assert file.contents == head + Flatten(records);
    return Some(file.contents);
  }
}
