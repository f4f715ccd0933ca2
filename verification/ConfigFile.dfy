/** The patcher as it runs: a tree of shared nodes edited in place, written back only if it reads as intended. */
module ConfigFile {
  import opened Text
  import opened Config
  import opened ConfigAst
  import opened ConfigWrite
  import opened ConfigPatch

  class Object {
    var members: seq<Member>
    var objectExtra: string

    constructor (ms: seq<Member>, extra: string)
      ensures members == ms && objectExtra == extra
    {
      members, objectExtra := ms, extra;
    }

    method SetMember(key: Key, v: Val)
      modifies this`members
      ensures members == SetOf(old(members), key, v)
    {
      hide Find;
      ghost var was := members;
      for i := 0 to |members|
        invariant members == old(members)
        invariant forall j :: 0 <= j < i ==> members[j].name != key
      {
        if members[i].name == key {
          FindIs(was, key, i);
          members := members[i := members[i].(val := v)];
          return;
        }
      }
      FindIs(was, key, |was|);
      members := members + [Member(key, v, "", "")];
    }

    // A new global goes above the tailnets array.
    method SetGlobal(key: Key, v: Val)
      modifies this`members
      ensures members == SetGlobalOf(old(members), key, v)
    {
      hide Find;
      ghost var was := members;
      for i := 0 to |members|
        invariant members == old(members)
        invariant forall j :: 0 <= j < i ==> members[j].name != key
      {
        if members[i].name == key {
          FindIs(was, key, i);
          members := members[i := members[i].(val := v)];
          return;
        }
      }
      var idx := 0;
      while idx < |members| && members[idx].name != Tailnets
        invariant 0 <= idx <= |members|
        invariant forall j :: 0 <= j < idx ==> members[j].name != Tailnets
      {
        idx := idx + 1;
      }
      FindIs(was, key, |was|);
      FindIs(was, Tailnets, idx);
      members := members[..idx] + [Member(key, v, "\n  ", " ")] + members[idx..];
    }

    method RemoveMember(key: Key)
      modifies this`members
      ensures members == RemoveOf(old(members), key)
    {
      for i := 0 to |members|
        invariant members == old(members)
        invariant forall j :: 0 <= j < i ==> members[j].name != key
      {
        if members[i].name == key {
          members := members[..i] + members[i + 1..];
          return;
        }
      }
    }

    // One field after another: a cleared value removes the member, a changed one sets it.
    method Edit(cs: seq<Change>, global: bool)
      modifies this`members
      ensures members == EditAll(old(members), cs, global)
    {
      for i := 0 to |cs|
        invariant members == EditAll(old(members), cs[..i], global)
      {
        assert cs[..i + 1][..i] == cs[..i];
        if cs[i].was != cs[i].now {
          if cs[i].now.None? {
            RemoveMember(cs[i].key);
          } else if global {
            SetGlobal(cs[i].key, cs[i].now.value);
          } else {
            SetMember(cs[i].key, cs[i].now.value);
          }
        }
      }
      assert cs[..|cs|] == cs;
    }
  }

  // An array slot: the object node and the spacing around it.
  datatype Slot = Slot(obj: Object, extra: string)

  ghost function Nodes(slots: seq<Slot>): set<Object> {
    set i | 0 <= i < |slots| :: slots[i].obj
  }

  ghost function Read(slots: seq<Slot>): seq<Element>
    reads Nodes(slots)
  {
    seq(|slots|, i requires 0 <= i < |slots| reads Nodes(slots) =>
      Element(slots[i].obj.members, slots[i].obj.objectExtra, slots[i].extra))
  }

  ghost predicate NodesApart(slots: seq<Slot>) {
    forall i, j :: 0 <= i < j < |slots| ==> slots[i].obj != slots[j].obj
  }

  class Tree {
    var root: Object
    var slots: seq<Slot>

    ghost predicate Valid()
      reads this
    {
      NodesApart(slots) && root !in Nodes(slots)
    }

    ghost function View(): Doc
      reads this, root, Nodes(slots)
    {
      Doc(root.members, Read(slots))
    }

    // hujson.Parse: fresh nodes for the file's text.
    constructor (doc: Doc)
      ensures Valid() && View() == doc && fresh(root) && fresh(Nodes(slots))
    {
      root := new Object(doc.members, "");
      slots := [];
      new;
      for i := 0 to |doc.elements|
        invariant Valid() && root.members == doc.members && fresh(root) && fresh(Nodes(slots))
        invariant |slots| == i && Read(slots) == doc.elements[..i]
      {
        var e := doc.elements[i];
        var obj := new Object(e.members, e.objectExtra);
        ghost var before := slots;
        slots := slots + [Slot(obj, e.extra)];
        assert Nodes(slots) == Nodes(before) + {obj} by {
          assert forall j :: 0 <= j < i ==> slots[j] == before[j];
          assert slots[i].obj == obj;
        }
        assert Read(slots) == doc.elements[..i] + [e];
      }
    }

    // Finds the element with that name, as an index; the number of elements when there is none.
    method TailnetObject(name: string) returns (i: nat)
      ensures i == ElementIndex(Read(slots), name)
    {
      i := 0;
      while i < |slots| && !HasName(slots[i].obj.members, name)
        invariant 0 <= i <= |slots|
        invariant forall j :: 0 <= j < i ==> !HasName(slots[j].obj.members, name)
      {
        i := i + 1;
      }
      assert forall j :: 0 <= j < |slots| ==> Read(slots)[j].members == slots[j].obj.members;
    }

    method RemoveTailnetElement(name: string)
      requires Valid()
      modifies this`slots
      ensures Valid() && Nodes(slots) <= old(Nodes(slots))
      ensures Read(slots) == RemoveElementOf(old(Read(slots)), name)
    {
      hide ElementIndex;
      var i := TailnetObject(name);
      if i < |slots| {
        DropSlot(slots, i);
        slots := slots[..i] + slots[i + 1..];
      }
    }

    // Appends bare members in canonical order; comments are for people.
    method InsertTailnetElement(n: TailnetConf)
      requires Valid()
      modifies this`slots
      ensures Valid() && fresh(Nodes(slots) - old(Nodes(slots)))
      ensures Read(slots) == old(Read(slots)) + [NewElement(n)]
    {
      var obj := NewObject(n);
      slots := slots + [Slot(obj, NewElement(n).extra)];
    }

    static method NewObject(n: TailnetConf) returns (obj: Object)
      ensures fresh(obj) && obj.members == NewElement(n).members && obj.objectExtra == NewElement(n).objectExtra
    {
      var fs := Fields(n);
      obj := new Object([], "\n    ");
      for i := 0 to |fs|
        invariant obj.members == MembersOf(fs[..i])
        modifies obj`members
      {
        assert fs[..i + 1][..i] == fs[..i];
        if fs[i].1.Some? {
          obj.members := obj.members + [Member(fs[i].0, fs[i].1.value, "\n      ", " ")];
        }
      }
      assert fs[..|fs|] == fs;
    }

    // Brings one entry from its old record to the new one; false when the entry is not in the file.
    method PatchEntry(n: TailnetConf, prev: seq<TailnetConf>) returns (ok: bool)
      requires Valid()
      modifies this`slots, Nodes(slots)
      ensures Valid() && fresh(Nodes(slots) - old(Nodes(slots)))
      ensures ok == PatchOneOf(old(Read(slots)), n, prev).Some?
      ensures ok ==> Read(slots) == PatchOneOf(old(Read(slots)), n, prev).value
    {
      hide EditAll, Changes, NewElement, OldOf, HasName, Structural;
      var o := OldOf(prev, n.name);
      if o.None? {
        InsertTailnetElement(n);
        return true;
      }
      var i := TailnetObject(n.name);
      if i == |slots| {
        return false;
      }
      ghost var els := Read(slots);
      var obj := slots[i].obj;
      if Structural(o.value, n) {
        var replacement := NewObject(n);
        obj.members, obj.objectExtra := replacement.members, replacement.objectExtra;
      } else {
        obj.Edit(Changes(o.value, n), false);
      }
      OneNodeChanged(els, slots, i, EditedElement(els[i], o.value, n));
      return true;
    }

    // Removals first, then every entry of the new record in order.
    method PatchTailnets(prev: seq<TailnetConf>, next: seq<TailnetConf>) returns (ok: bool)
      requires Valid()
      modifies this`slots, Nodes(slots)
      ensures Valid() && fresh(Nodes(slots) - old(Nodes(slots)))
      ensures var r := PatchAllOf(RemoveGoneOf(old(Read(slots)), prev, next), next, prev);
        ok == r.Some? && (ok ==> Read(slots) == r.value)
    {
      hide PatchOneOf, RemoveElementOf, Has;
      for i := 0 to |prev|
        invariant Valid() && Nodes(slots) <= old(Nodes(slots))
        invariant Read(slots) == RemoveGoneOf(old(Read(slots)), prev[..i], next)
      {
        RemoveGoneStep(old(Read(slots)), prev, next, i);
        if !Has(next, prev[i].name) {
          RemoveTailnetElement(prev[i].name);
        }
      }
      assert prev[..|prev|] == prev;
      ghost var kept := Read(slots);
      ok := true;
      for i := 0 to |next|
        invariant Valid() && fresh(Nodes(slots) - old(Nodes(slots)))
        invariant PatchAllOf(kept, next[..i], prev) == Some(Read(slots))
      {
        assert next[..i + 1][..i] == next[..i];
        ok := PatchEntry(next[i], prev);
        if !ok {
          PatchStopsAt(kept, next, prev, i + 1);
          return;
        }
      }
      assert next[..|next|] == next;
    }

    // tailnetsArray: the array member, created when absent; false when tailnets is something else.
    method TailnetsArray() returns (ok: bool)
      modifies root`members
      ensures ok == WithArray(old(root.members)).Some?
      ensures root.members == if ok then WithArray(old(root.members)).value else old(root.members)
    {
      for i := 0 to |root.members|
        invariant root.members == old(root.members)
        invariant forall j :: 0 <= j < i ==> root.members[j].name != Tailnets
      {
        if root.members[i].name == Tailnets {
          return root.members[i].val == Array;
        }
      }
      root.members := root.members + [Member(Tailnets, Array, "\n  ", " ")];
      return true;
    }

    method Patch(prev: Config, next: Config) returns (ok: bool)
      requires Valid()
      modifies this`slots, root, Nodes(slots)
      ensures Valid()
      ensures ok == PatchDocOf(old(View()), prev, next).Some?
      ensures ok ==> View() == PatchDocOf(old(View()), prev, next).value
    {
      root.Edit(GlobalChanges(prev, next), true);
      ok := TailnetsArray();
      if ok {
        assert Read(slots) == old(Read(slots));
        ok := PatchTailnets(prev.tailnets, next.tailnets);
      }
    }
  }

  lemma DropSlot(slots: seq<Slot>, i: nat)
    requires i < |slots|
    ensures var out := slots[..i] + slots[i + 1..];
      && (NodesApart(slots) ==> NodesApart(out)) && Nodes(out) <= Nodes(slots)
      && Read(out) == Read(slots)[..i] + Read(slots)[i + 1..]
  {
    var out := slots[..i] + slots[i + 1..];
    assert forall j :: 0 <= j < |out| ==> out[j] == slots[if j < i then j else j + 1];
  }

  lemma OneNodeChanged(els: seq<Element>, slots: seq<Slot>, i: nat, e: Element)
    requires |els| == |slots| && i < |slots| && NodesApart(slots)
    requires e == Element(slots[i].obj.members, slots[i].obj.objectExtra, slots[i].extra)
    requires forall j :: 0 <= j < |slots| && j != i
               ==> els[j] == Element(slots[j].obj.members, slots[j].obj.objectExtra, slots[j].extra)
    ensures Read(slots) == els[i := e]
  {
  }

  // A failed entry fails the whole pass.
  lemma {:induction false} PatchStopsAt(els: seq<Element>, ns: seq<TailnetConf>, prev: seq<TailnetConf>, k: nat)
    requires k <= |ns| && PatchAllOf(els, ns[..k], prev).None?
    ensures PatchAllOf(els, ns, prev).None?
    decreases |ns| - k
  {
    hide PatchOneOf;
    if k < |ns| {
      assert ns[..k + 1][..k] == ns[..k];
      PatchStopsAt(els, ns, prev, k + 1);
    } else {
      assert ns[..k] == ns;
    }
  }

  class ConfigFile {
    var doc: Doc

    constructor (d: Doc)
      ensures doc == d
    {
      doc := d;
    }

    // patchConfigFile: the file changes only as a whole, and only to a tree that reads as next. writable
    // says whether the disk takes the new text.
    method PatchConfigFile(prev: Config, next: Config, norm: string -> Option<string>,
                           writable: bool) returns (ok: bool)
      modifies this
      ensures ok == (writable && PatchOf(old(doc), prev, next, norm).Some?)
      ensures doc == if ok then PatchOf(old(doc), prev, next, norm).value else old(doc)
    {
      hide PatchDocOf, ParseDoc, ConfigsEqual;
      var tree := new Tree(doc);
      ok := tree.Patch(prev, next);
      if !ok {
        return;
      }
      var out := Packed(tree);
      var got := ParseDoc(out, norm);
      if got.None? || !ConfigsEqual(got.value, next) || !writable {
        return false;
      }
      doc := out;
    }
  }

  // The tree as text again.
  method Packed(tree: Tree) returns (doc: Doc)
    ensures doc == tree.View()
  {
    var els: seq<Element> := [];
    for i := 0 to |tree.slots|
      invariant els == Read(tree.slots)[..i]
    {
      var s := tree.slots[i];
      els := els + [Element(s.obj.members, s.obj.objectExtra, s.extra)];
    }
    doc := Doc(tree.root.members, els);
  }

  lemma FindIs(ms: seq<Member>, key: Key, i: nat)
    requires i <= |ms| && (i < |ms| ==> ms[i].name == key) && forall j :: 0 <= j < i ==> ms[j].name != key
    ensures Find(ms, key) == i
  {
  }
}
