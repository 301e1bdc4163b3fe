/** Translated container files against the online heap. */
module HeldReferences {
  import opened Machine
  import opened AddrMap
  import opened OnlineHeap
  import opened OfflineReading
  import opened HeapReconstruction
  import opened Records
  import opened StdioTransform
  import opened Translation
  import opened Sequences

  // Each reference of a record is the name of the object the heap held at that address
  // when the call was made.

  /** `id` names what the heap held at `a` at time `t`, if it held anything there. */
  ghost predicate NamesHeld(trace: seq<Event>, naming: Naming, a: U32, t: U64, id: U32) {
    var h := HeapAt(trace, t);
    a in h ==> h[a] in naming && id == naming[h[a]]
  }

  /** The references of `now` name what those of `was` pointed to at that record's time; nothing else changed. */
  ghost predicate RecordHeld(trace: seq<Event>, naming: Naming, was: OpRecord, now: OpRecord) {
    && NamesHeld(trace, naming, was.br.holder, was.br.time, now.br.holder)
    && NamesHeld(trace, naming, was.br.ref, was.br.time, now.br.ref)
    && now.br.cid == was.br.cid && now.br.copid == was.br.copid
    && now.br.time == was.br.time && now.br.size == was.br.size
    && now.ListOp? == was.ListOp?
    && (was.ListOp? ==> now.idxOrSucc == was.idxOrSucc)
    && (was.MapOp? ==>
          NamesHeld(trace, naming, was.value, was.br.time, now.value) && NamesHeld(trace, naming, was.key, was.br.time, now.key))
  }

  ghost predicate AllHeld(trace: seq<Event>, naming: Naming, was: seq<OpRecord>, now: seq<OpRecord>) {
    |now| == |was| && forall i :: 0 <= i < |was| ==> RecordHeld(trace, naming, was[i], now[i])
  }

  lemma {:induction false} TranslatedHeld(trace: seq<Event>, log: seq<Write>, naming: Naming, r: OpRecord)
    requires Reconstructs(trace, log, naming)
    ensures RecordHeld(trace, naming, r, Translated(log, r))
  {
    assert NamedAt(trace, log, naming, r.br.holder, r.br.time) && NamedAt(trace, log, naming, r.br.ref, r.br.time);
    if r.MapOp? {
      assert NamedAt(trace, log, naming, r.value, r.br.time) && NamedAt(trace, log, naming, r.key, r.br.time);
    }
  }

  /**
   Where every relocation's lookup goes right, one injective naming of objects holds
   for all container files at once: read back after the rewriting, each reference of
   each record is the name of the object at that address at that record's time.
   */
  lemma {:induction false} FilesNameHeldObjects(trace: seq<Event>, newFiles: seq<seq<NewRecord>>, gcFiles: seq<seq<GcRecord>>)
    returns (naming: Naming)
    requires Recorded(trace, Concat(newFiles), Concat(gcFiles))
    requires GoodReads(trace, Concat(gcFiles), |Concat(gcFiles)|)
    ensures Injective(naming) && FollowsFiles(Concat(newFiles), naming)
    ensures forall kind: OpKind, images, rs :: OpImages(kind, images, rs) ==>
              var fs := Accessors(Build(newFiles, gcFiles).log, MembersOf(kind));
              AllHeld(trace, naming, rs, OpsIn(kind, Mapped(fs, OP_SIZE, Concat(images))))
  {
    naming := GoodReadsReconstruct(trace, Concat(newFiles), Concat(gcFiles));
    ReadIsBuilt(newFiles, gcFiles);
    var log := Build(newFiles, gcFiles).log;
    forall kind: OpKind, images, rs | OpImages(kind, images, rs)
      ensures AllHeld(trace, naming, rs, OpsIn(kind, Mapped(Accessors(log, MembersOf(kind)), OP_SIZE, Concat(images))))
    {
      TranslatesFile(log, kind, images, rs);
      forall i | 0 <= i < |rs| ensures RecordHeld(trace, naming, rs[i], TranslatedAll(log, rs)[i]) {
        TranslatedHeld(trace, log, naming, rs[i]);
      }
    }
  }
}
