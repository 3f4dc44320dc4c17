/** The project: tags that are unique over all addresses, the saved regions, and its file form. */
module Project {
  import opened Bytes
  import opened Options

  type Tags = map<nat, seq<string>>

  type RegionMap = map<nat, seq<Byte>>

  // ---------------------------------------------------------------------------------------------
  // Tags
  // ---------------------------------------------------------------------------------------------

  /** Some address has the tag. */
  predicate Taken(tags: Tags, tag: string) {
    exists a | a in tags :: tag in tags[a]
  }

  ghost predicate NoRepeats(list: seq<string>) {
    list == [] || (list[0] !in list[1..] && NoRepeats(list[1..]))
  }

  /** No tag occurs twice, neither at one address nor at two. */
  ghost predicate Unique(tags: Tags) {
    && (forall a | a in tags :: NoRepeats(tags[a]))
    && (forall a, b, t | a in tags && b in tags && t in tags[a] && t in tags[b] :: a == b)
  }

  function TagsAt(tags: Tags, address: nat): seq<string> {
    if address in tags then tags[address] else []
  }

  function WithTag(tags: Tags, tag: string, address: nat): Tags {
    if Taken(tags, tag) then tags else tags[address := TagsAt(tags, address) + [tag]]
  }

  /** The list without any occurrence of the tag. */
  function Without(list: seq<string>, tag: string): (r: seq<string>)
    ensures tag !in r
    ensures forall t | t != tag :: t in r <==> t in list
    ensures tag !in list ==> r == list
  {
    if list == [] then []
    else if list[0] == tag then Without(list[1..], tag)
    else [list[0]] + Without(list[1..], tag)
  }

  /** The table without any occurrence of the tag at any address. */
  function WithoutTag(tags: Tags, tag: string): Tags {
    map a | a in tags :: Without(tags[a], tag)
  }

  function WithoutTags(tags: Tags, gone: seq<string>): Tags {
    if gone == [] then tags else WithoutTags(WithoutTag(tags, gone[0]), gone[1..])
  }

  lemma {:induction false} AppendNoRepeats(list: seq<string>, tag: string)
    requires NoRepeats(list) && tag !in list
    ensures NoRepeats(list + [tag])
  {
    if list != [] {
      AppendNoRepeats(list[1..], tag);
      assert (list + [tag])[1..] == list[1..] + [tag];
    } else {
      assert (list + [tag])[1..] == [];
    }
  }

  lemma WithTagUnique(tags: Tags, tag: string, address: nat)
    requires Unique(tags)
    ensures Unique(WithTag(tags, tag, address))
  {
    if !Taken(tags, tag) {
      assert NoRepeats(TagsAt(tags, address));
      AppendNoRepeats(TagsAt(tags, address), tag);
    }
  }

  lemma {:induction false} WithoutNoRepeats(list: seq<string>, tag: string)
    requires NoRepeats(list)
    ensures NoRepeats(Without(list, tag))
  {
    if list != [] {
      WithoutNoRepeats(list[1..], tag);
      if list[0] != tag {
        assert Without(list, tag)[1..] == Without(list[1..], tag);
      }
    }
  }

  lemma WithoutTagUnique(tags: Tags, tag: string)
    requires Unique(tags)
    ensures Unique(WithoutTag(tags, tag))
  {
    forall a | a in tags ensures NoRepeats(Without(tags[a], tag)) {
      WithoutNoRepeats(tags[a], tag);
    }
  }

  /** As no tag is at two addresses, the first address that has it is the only one. */
  lemma RemovedAtOneAddress(tags: Tags, tag: string, a: nat)
    requires Unique(tags) && a in tags && tag in tags[a]
    ensures tags[a := Without(tags[a], tag)] == WithoutTag(tags, tag)
  {
    hide NoRepeats;
    forall b | b in tags && b != a ensures Without(tags[b], tag) == tags[b] {
      assert tag !in tags[b];
    }
  }

  lemma NotRemoved(tags: Tags, tag: string)
    requires !Taken(tags, tag)
    ensures WithoutTag(tags, tag) == tags
  {
    forall a | a in tags ensures Without(tags[a], tag) == tags[a] {
      assert tag !in tags[a];
    }
  }

  lemma {:induction false} WithoutTagsUnique(tags: Tags, gone: seq<string>)
    requires Unique(tags)
    ensures Unique(WithoutTags(tags, gone))
    decreases |gone|
  {
    if gone != [] {
      WithoutTagUnique(tags, gone[0]);
      WithoutTagsUnique(WithoutTag(tags, gone[0]), gone[1..]);
    }
  }

  /** None of the removed tags is left anywhere, and every other tag stays where it was. */
  lemma {:induction false} WithoutTagsRemoves(tags: Tags, gone: seq<string>, tag: string, address: nat)
    ensures WithoutTags(tags, gone).Keys == tags.Keys
    ensures address in tags ==> (tag in WithoutTags(tags, gone)[address] <==> tag in tags[address] && tag !in gone)
    decreases |gone|
  {
    if gone != [] {
      WithoutTagsRemoves(WithoutTag(tags, gone[0]), gone[1..], tag, address);
    }
  }

  class TagTable {
    var tags: Tags

    ghost predicate Valid()
      reads this
    {
      Unique(tags)
    }

    constructor ()
      ensures Valid() && tags == map[]
    {
      tags := map[];
    }

    method AddAddressTag(tag: string, address: nat) returns (added: bool)
      requires Valid()
      modifies this
      ensures Valid() && tags == WithTag(old(tags), tag, address) && added == !Taken(old(tags), tag)
    {
      WithTagUnique(tags, tag, address);
      var addresses := tags.Keys;
      while addresses != {}
        invariant addresses <= tags.Keys
        invariant forall a | a in tags && a !in addresses :: tag !in tags[a]
        decreases |addresses|
      {
        var a :| a in addresses;
        if tag in tags[a] {
          assert Taken(tags, tag);
          return false;
        }
        addresses := addresses - {a};
      }
      assert !Taken(tags, tag);
      if address in tags {
        tags := tags[address := tags[address] + [tag]];
      } else {
        assert [] + [tag] == [tag];
        tags := tags[address := [tag]];
      }
      added := true;
    }

    /** For each tag the search stops at the first address that has it, in whatever order. */
    method RemoveAddressTags(gone: seq<string>) returns (removed: bool)
      requires Valid()
      modifies this
      ensures Valid() && tags == WithoutTags(old(tags), gone)
      ensures removed <==> tags != old(tags)
    {
      WithoutTagsUnique(tags, gone);
      removed := false;
      for i := 0 to |gone|
        invariant Valid() && WithoutTags(tags, gone[i..]) == WithoutTags(old(tags), gone)
        invariant removed <==> tags != old(tags)
        invariant Shrunk(old(tags), tags)
      {
        var found := RemoveOne(gone[i]);
        removed := removed || found;
        assert gone[i..][1..] == gone[i + 1..];
      }
    }

    method RemoveOne(tag: string) returns (found: bool)
      requires Valid()
      modifies this
      ensures Valid() && tags == WithoutTag(old(tags), tag)
      ensures found == Taken(old(tags), tag)
      ensures Shrunk(old(tags), tags) && (found ==> tags != old(tags))
    {
      WithoutTagUnique(tags, tag);
      found := false;
      var addresses := tags.Keys;
      while addresses != {}
        invariant tags == old(tags) && addresses <= tags.Keys
        invariant forall a | a in tags && a !in addresses :: tag !in tags[a]
        decreases |addresses|
      {
        var a :| a in addresses;
        if tag in tags[a] {
          RemovedAtOneAddress(tags, tag, a);
          assert Taken(tags, tag);
          tags := tags[a := Without(tags[a], tag)];
          return true;
        }
        addresses := addresses - {a};
      }
      NotRemoved(tags, tag);
    }
  }

  /** The same addresses with no more tags. */
  ghost predicate Shrunk(before: Tags, after: Tags) {
    before.Keys == after.Keys && forall a, t | a in after && t in after[a] :: t in before[a]
  }
}
