/** The tree patcher does to the file what the record-by-record write says, whatever names repeat. */
module PatchRefinement {
  import opened Text
  import opened Config
  import opened ConfigWrite
  import opened ConfigAst
  import opened ConfigPatch

  lemma RemoveReads(els: seq<Element>, confs: seq<TailnetConf>, name: string, norm: string -> Option<string>)
    requires ReadAs(els, confs, norm)
    ensures ReadAs(RemoveElementOf(els, name), Without(confs, name), norm)
  {
    hide ConfigPatch.Reads;
    ElementIndexIs(els, confs, name, Place(confs, name), norm);
  }

  lemma {:induction false} RemoveGoneReads(els: seq<Element>, confs: seq<TailnetConf>, olds: seq<TailnetConf>,
                                           next: seq<TailnetConf>, norm: string -> Option<string>)
    requires ReadAs(els, confs, norm)
    ensures ReadAs(RemoveGoneOf(els, olds, next), RemoveGone(confs, olds, next), norm)
  {
    hide ReadAs, Has, RemoveElementOf, Without;
    if olds != [] {
      var init, o := olds[..|olds| - 1], olds[|olds| - 1];
      RemoveGoneReads(els, confs, init, next, norm);
      RemoveReads(RemoveGoneOf(els, init, next), RemoveGone(confs, init, next), o.name, norm);
    }
  }

  lemma EditedReadsAs(e: Element, f: TailnetConf, o: TailnetConf, n: TailnetConf, norm: string -> Option<string>)
    requires ConfigPatch.Reads(e, f, norm) && Complete(n) && Canonical(n.autoSelect, norm)
    ensures ConfigPatch.Reads(EditedElement(e, o, n), Rewritten(f, o, n), norm)
  {
    hide NoDups, ParseTailnet, Changes, EditAll, NewElement, Complete, Canonical, Merged;
    if Structural(o, n) { NewElementParses(n, norm); } else { EditedElementParses(e.members, f, o, n, norm); }
  }

  lemma NewReadsAs(n: TailnetConf, norm: string -> Option<string>)
    requires Complete(n) && Canonical(n.autoSelect, norm)
    ensures ConfigPatch.Reads(NewElement(n), n.(stateDir := ""), norm)
  {
    hide NoDups, ParseTailnet, Complete, Canonical, NewElement;
    NewElementParses(n, norm);
  }

  lemma PatchOneReads(els: seq<Element>, confs: seq<TailnetConf>, n: TailnetConf, prev: seq<TailnetConf>,
                      norm: string -> Option<string>)
    requires ReadAs(els, confs, norm) && Complete(n) && Canonical(n.autoSelect, norm)
    ensures PatchOneOf(els, n, prev).Some? <==> WriteOne(confs, n, prev).Some?
    ensures PatchOneOf(els, n, prev).Some? ==>
              ReadAs(PatchOneOf(els, n, prev).value, WriteOne(confs, n, prev).value, norm)
  {
    hide ConfigPatch.Reads, OldOf, Complete, Canonical, EditedElement, Rewritten, NewElement;
    match OldOf(prev, n.name) {
      case None => NewReadsAs(n, norm);
      case Some(o) =>
        var i := Place(confs, n.name);
        ElementIndexIs(els, confs, n.name, i, norm);
        if i < |confs| { EditedReadsAs(els[i], confs[i], o, n, norm); }
    }
  }

  ghost predicate Writable(next: seq<TailnetConf>, norm: string -> Option<string>) {
    forall n :: n in next ==> Complete(n) && Canonical(n.autoSelect, norm)
  }

  lemma {:induction false} PatchAllReads(els: seq<Element>, confs: seq<TailnetConf>, ns: seq<TailnetConf>,
                                         prev: seq<TailnetConf>, norm: string -> Option<string>)
    requires ReadAs(els, confs, norm) && Writable(ns, norm)
    ensures PatchAllOf(els, ns, prev).Some? <==> WriteAll(confs, ns, prev).Some?
    ensures PatchAllOf(els, ns, prev).Some? ==>
              ReadAs(PatchAllOf(els, ns, prev).value, WriteAll(confs, ns, prev).value, norm)
  {
    hide ReadAs, PatchOneOf, WriteOne, Complete, Canonical;
    if ns != [] {
      var init, n := ns[..|ns| - 1], ns[|ns| - 1];
      PatchAllReads(els, confs, init, prev, norm);
      if PatchAllOf(els, init, prev).Some? {
        PatchOneReads(PatchAllOf(els, init, prev).value, WriteAll(confs, init, prev).value, n, prev, norm);
      }
    }
  }

  // For any file without repeated members, whatever names its tailnets repeat, and any change of complete,
  // canonical records: the patch is written if and only if tailnets is not null and the record-by-record
  // write goes through, and the file then reads as that write says, auth keys included.
  lemma PatchRefinesWrite(doc: Doc, file: Config, prev: Config, next: Config, norm: string -> Option<string>)
    requires Patchable(doc, file, norm) && prev.(tailnets := []) == file.(tailnets := [])
    requires Writable(next.tailnets, norm)
    ensures var w := Write(file.tailnets, prev.tailnets, next.tailnets);
      && (PatchOf(doc, prev, next, norm).Some? <==> !NullTailnets(doc) && w.Some?)
      && (PatchOf(doc, prev, next, norm).Some? ==>
            ParseDoc(PatchOf(doc, prev, next, norm).value, norm) == Some(next.(tailnets := w.value)))
  {
    hide NoDups, Lookup, NullTailnets, ParseDoc, SameButKeys, Writable, PatchDocOf, WriteAll, RemoveGone;
    if NullTailnets(doc) {
      NullIsRefused(doc, prev, next);
      return;
    }
    PatchedReads(doc, file, prev, next, norm);
  }

  lemma PatchedReads(doc: Doc, file: Config, prev: Config, next: Config, norm: string -> Option<string>)
    requires Patchable(doc, file, norm) && !NullTailnets(doc) && prev.(tailnets := []) == file.(tailnets := [])
    requires Writable(next.tailnets, norm)
    ensures var all := WriteAll(RemoveGone(file.tailnets, prev.tailnets, next.tailnets), next.tailnets, prev.tailnets);
      && (PatchDocOf(doc, prev, next).Some? <==> all.Some?)
      && (all.Some? ==> ParseDoc(PatchDocOf(doc, prev, next).value, norm) == Some(next.(tailnets := all.value)))
  {
    hide NoDups, Lookup, EditAll, DecodeGlobals, PatchAllOf, RemoveGoneOf, RemoveGone, WriteAll, ReadAs, WithArray,
         ParseTailnets, Writable;
    PatchableReads(doc, file, norm);
    SameGlobals(doc.members, file, prev);
    RemoveGoneReads(doc.elements, file.tailnets, prev.tailnets, next.tailnets, norm);
    var els := RemoveGoneOf(doc.elements, prev.tailnets, next.tailnets);
    var left := RemoveGone(file.tailnets, prev.tailnets, next.tailnets);
    PatchAllReads(els, left, next.tailnets, prev.tailnets, norm);
    var all := WriteAll(left, next.tailnets, prev.tailnets);
    var ts := if all.Some? then all.value else [];
    EditedGlobals(doc.members, prev, next, ts);
    var ms := EditAll(doc.members, GlobalChanges(prev, next), true);
    ArrayIff(ms);
    ArrayAdded(ms, WithArray(ms).value, ts);
    if all.Some? { ParseTailnetsIs(PatchDocOf(doc, prev, next).value.elements, ts, norm); }
  }

  lemma SameGlobals(ms: seq<Member>, file: Config, prev: Config)
    requires prev.(tailnets := []) == file.(tailnets := []) && DecodeGlobals(ms, file.tailnets) == Some(file)
    ensures DecodeGlobals(ms, prev.tailnets) == Some(prev)
  {
    hide Lookup, NumOf, StrOf;
    DecodeGlobalsIsReads(ms, file);
    DecodeGlobalsIsReads(ms, prev);
    assert prev == file.(tailnets := prev.tailnets);
  }
}
