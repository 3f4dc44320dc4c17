/** The file form of a project: JSON objects whose keys are decimal addresses. */
module ProjectFile {
  import opened Bytes
  import opened Numerals
  import opened Options
  import opened Project

  // ---------------------------------------------------------------------------------------------
  // Decimal keys
  // ---------------------------------------------------------------------------------------------

  const LONG_LONG_LIMIT := 0x8000_0000_0000_0000

  /** Keys are read as signed 64-bit numbers. */
  function ParseKey(s: string): Option<nat> {
    var v := DecimalValue(s);
    if v.Some? && v.value < LONG_LONG_LIMIT then v else None
  }

  // ---------------------------------------------------------------------------------------------
  // Hexadecimal data
  // ---------------------------------------------------------------------------------------------

  function HexChar(d: nat): char
    requires d < 16
  {
    if d < 10 then '0' + d as char else 'a' + (d - 10) as char
  }

  function ToHex(data: seq<Byte>): string {
    if data == [] then "" else [HexChar(data[0] / 16), HexChar(data[0] % 16)] + ToHex(data[1..])
  }

  /**
   Reads from the end and skips what is not a digit. `low` is the digit that waits for its upper
   half; a digit left over at the front is a byte of its own.
   */
  function FromHexWith(s: string, low: Option<nat>): seq<Byte>
    requires low.Some? ==> low.value < 16
    decreases |s|
  {
    if s == "" then (if low.Some? then [low.value] else [])
    else
      var d := HexDigit(s[|s| - 1]);
      var front := s[..|s| - 1];
      if d.None? then FromHexWith(front, low)
      else if low.None? then FromHexWith(front, d)
      else FromHexWith(front, None) + [d.value * 16 + low.value]
  }

  function FromHex(s: string): seq<Byte> {
    FromHexWith(s, None)
  }

  lemma {:induction false} ToHexAppend(data: seq<Byte>, b: Byte)
    ensures ToHex(data + [b]) == ToHex(data) + [HexChar(b / 16), HexChar(b % 16)]
  {
    if data == [] {
      assert data + [b] == [b];
      assert [b][1..] == [];
    } else {
      ToHexAppend(data[1..], b);
      assert (data + [b])[1..] == data[1..] + [b];
    }
  }

  lemma {:induction false} HexRoundTrip(data: seq<Byte>)
    ensures FromHex(ToHex(data)) == data
  {
    if data == [] {
      assert ToHex(data) == "";
    } else {
      hide ToHex, FromHex;
      var front, b := data[..|data| - 1], data[|data| - 1];
      assert data == front + [b];
      HexRoundTrip(front);
      ToHexAppend(front, b);
      HexLastByte(front, b);
    }
  }

  lemma HexLastByte(front: seq<Byte>, b: Byte)
    requires FromHex(ToHex(front)) == front
    ensures FromHex(ToHex(front) + [HexChar(b / 16), HexChar(b % 16)]) == front + [b]
  {
    hide ToHex, HexChar, FromHex;
    var high, low := b / 16, b % 16;
    assert b == high * 16 + low && high < 16 && low < 16;
    FromHexPair(ToHex(front), high, low);
  }

  lemma FromHexPair(s: string, high: nat, low: nat)
    requires high < 16 && low < 16
    ensures FromHex(s + [HexChar(high), HexChar(low)]) == FromHex(s) + [high * 16 + low]
  {
    var t := s + [HexChar(high), HexChar(low)];
    var u := s + [HexChar(high)];
    assert t[|t| - 1] == HexChar(low) && t[..|t| - 1] == u;
    assert u[|u| - 1] == HexChar(high) && u[..|u| - 1] == s;
    assert FromHexWith(t, None) == FromHexWith(u, Some(low));
  }

  // ---------------------------------------------------------------------------------------------
  // Save and load
  // ---------------------------------------------------------------------------------------------

  /** The two objects of the file that depend on addresses. */
  datatype File = File(addressTags: map<string, seq<string>>, modifiedRegions: map<string, string>)

  /** One entry for every address; two addresses never share a key. */
  ghost predicate Saves<V, W>(m: map<nat, V>, obj: map<string, W>, encode: V -> W) {
    && (forall a | a in m :: Decimal(a) in obj && obj[Decimal(a)] == encode(m[a]))
    && (forall key | key in obj :: exists a | a in m :: key == Decimal(a))
  }

  /** The tags of an address are kept as a list of texts. */
  function TagArray(list: seq<string>): seq<string> { list }

  method Save(tags: Tags, regions: RegionMap) returns (file: File)
    ensures Saves(tags, file.addressTags, TagArray)
    ensures Saves(regions, file.modifiedRegions, ToHex)
  {
    var tagsObj := SaveObject(tags, TagArray);
    var modsObj := SaveObject(regions, ToHex);
    file := File(tagsObj, modsObj);
  }

  /** Goes over the addresses in any order. */
  method SaveObject<V, W>(m: map<nat, V>, encode: V -> W) returns (obj: map<string, W>)
    ensures Saves(m, obj, encode)
  {
    obj := map[];
    var keys := m.Keys;
    while keys != {}
      invariant keys <= m.Keys
      invariant forall a | a in m && a !in keys :: Decimal(a) in obj && obj[Decimal(a)] == encode(m[a])
      invariant forall key | key in obj :: exists a | a in m && a !in keys :: key == Decimal(a)
      decreases |keys|
    {
      var a :| a in keys;
      forall b | b in m && Decimal(b) == Decimal(a) ensures a == b {
        DecimalInjective(a, b);
      }
      ghost var before := obj;
      var left := keys - {a};
      obj := obj[Decimal(a) := encode(m[a])];
      forall key | key in obj ensures exists b | b in m && b !in left :: key == Decimal(b) {
        if key != Decimal(a) {
          assert key in before;
        }
      }
      keys := left;
    }
  }

  /** Adds the tags of one address one after the other; a tag that is taken is left out. */
  function AddAll(tags: Tags, list: seq<string>, address: nat): Tags
    decreases |list|
  {
    if list == [] then tags else AddAll(WithTag(tags, list[0], address), list[1..], address)
  }

  /** The keys in the order in which the object lists them; None when one is no address. */
  function LoadTags(obj: map<string, seq<string>>, keys: seq<string>, acc: Tags): Option<Tags>
    requires forall k | k in keys :: k in obj
    decreases |keys|
  {
    if keys == [] then Some(acc)
    else if ParseKey(keys[0]).None? then None
    else LoadTags(obj, keys[1..], AddAll(acc, obj[keys[0]], ParseKey(keys[0]).value))
  }

  function LoadRegions(obj: map<string, string>, keys: seq<string>, acc: RegionMap): Option<RegionMap>
    requires forall k | k in keys :: k in obj
    decreases |keys|
  {
    if keys == [] then Some(acc)
    else if ParseKey(keys[0]).None? then None
    else LoadRegions(obj, keys[1..], acc[ParseKey(keys[0]).value := FromHex(obj[keys[0]])])
  }

  method LoadTagTable(obj: map<string, seq<string>>, keys: seq<string>, table: TagTable) returns (ok: bool)
    requires table.Valid() && forall k | k in keys :: k in obj
    modifies table
    ensures table.Valid()
    ensures ok == LoadTags(obj, keys, old(table.tags)).Some?
    ensures ok ==> Some(table.tags) == LoadTags(obj, keys, old(table.tags))
  {
    for i := 0 to |keys|
      invariant table.Valid()
      invariant LoadTags(obj, keys[i..], table.tags) == LoadTags(obj, keys, old(table.tags))
    {
      assert keys[i..][1..] == keys[i + 1..];
      var address := ParseKey(keys[i]);
      if address.None? { return false; }
      AddTags(obj[keys[i]], address.value, table);
    }
    ok := true;
  }

  method AddTags(list: seq<string>, address: nat, table: TagTable)
    requires table.Valid()
    modifies table
    ensures table.Valid() && table.tags == AddAll(old(table.tags), list, address)
  {
    for j := 0 to |list|
      invariant table.Valid()
      invariant AddAll(table.tags, list[j..], address) == AddAll(old(table.tags), list, address)
    {
      assert list[j..][1..] == list[j + 1..];
      var _ := table.AddAddressTag(list[j], address);
    }
  }

  method LoadRegionMap(obj: map<string, string>, keys: seq<string>) returns (r: Option<RegionMap>)
    requires forall k | k in keys :: k in obj
    ensures r == LoadRegions(obj, keys, map[])
  {
    var m: RegionMap := map[];
    for i := 0 to |keys|
      invariant LoadRegions(obj, keys[i..], m) == LoadRegions(obj, keys, map[])
    {
      assert keys[i..][1..] == keys[i + 1..];
      var address := ParseKey(keys[i]);
      if address.None? { return None; }
      m := m[address.value := FromHex(obj[keys[i]])];
    }
    r := Some(m);
  }

  // ---------------------------------------------------------------------------------------------
  // What comes back
  // ---------------------------------------------------------------------------------------------

  /** The keys of an object in some order. */
  ghost predicate Lists<W>(keys: seq<string>, obj: map<string, W>) {
    forall k :: k in keys <==> k in obj
  }

  /** What is still to be loaded joins what has been loaded. */
  lemma {:induction false} RegionsLoaded(regions: RegionMap, obj: map<string, string>, keys: seq<string>, acc: RegionMap)
    requires Saves(regions, obj, ToHex)
    requires forall a | a in regions :: a < LONG_LONG_LIMIT
    requires forall k | k in keys :: k in obj
    requires forall a | a in acc :: a in regions && acc[a] == regions[a]
    requires forall a | a in regions :: a in acc || Decimal(a) in keys
    ensures LoadRegions(obj, keys, acc) == Some(regions)
    decreases |keys|
  {
    if keys == [] {
      assert acc == regions;
    } else {
      assert keys[0] in keys;
      var a :| a in regions && keys[0] == Decimal(a);
      hide Decimal, DecimalValue, ToHex, FromHex;
      var next := acc[a := regions[a]];
      RegionStep(regions, obj, keys, acc, a);
      hide LoadRegions, Saves;
      RegionsLeft(regions, keys, acc, next, a);
      RegionsLoaded(regions, obj, keys[1..], next);
    }
  }

  lemma RegionStep(regions: RegionMap, obj: map<string, string>, keys: seq<string>, acc: RegionMap, a: nat)
    requires keys != [] && (forall k | k in keys :: k in obj) && a in regions && a < LONG_LONG_LIMIT
    requires keys[0] == Decimal(a) && obj[keys[0]] == ToHex(regions[a])
    ensures (forall k | k in keys[1..] :: k in obj)
    ensures LoadRegions(obj, keys, acc) == LoadRegions(obj, keys[1..], acc[a := regions[a]])
  {
    hide Decimal, DecimalValue, ToHex, FromHex;
    DecimalRoundTrip(a);
    HexRoundTrip(regions[a]);
  }

  lemma RegionsLeft(regions: RegionMap, keys: seq<string>, acc: RegionMap, next: RegionMap, a: nat)
    requires keys != [] && a in regions && keys[0] == Decimal(a) && next == acc[a := regions[a]]
    requires forall b | b in acc :: b in regions && acc[b] == regions[b]
    requires forall b | b in regions :: b in acc || Decimal(b) in keys
    ensures forall b | b in next :: b in regions && next[b] == regions[b]
    ensures forall b | b in regions :: b in next || Decimal(b) in keys[1..]
  {
    hide Decimal;
    forall b | b in regions ensures b in next || Decimal(b) in keys[1..] {
      if Decimal(b) == Decimal(a) { DecimalInjective(a, b); }
    }
  }

  /** A key beyond the signed range makes the whole project unreadable. */
  lemma {:induction false} LargeAddressUnreadable(regions: RegionMap, obj: map<string, string>, keys: seq<string>, acc: RegionMap, a: nat)
    requires Saves(regions, obj, ToHex) && a in regions && a >= LONG_LONG_LIMIT
    requires (forall k | k in keys :: k in obj) && Decimal(a) in keys
    ensures LoadRegions(obj, keys, acc) == None
    decreases |keys|
  {
    DecimalRoundTrip(a);
    if keys[0] != Decimal(a) && ParseKey(keys[0]).Some? {
      LargeAddressUnreadable(regions, obj, keys[1..], acc[ParseKey(keys[0]).value := FromHex(obj[keys[0]])], a);
    }
  }

  /** Saved regions are read back, whatever the order of the keys, exactly when all addresses are signed. */
  lemma RegionsRoundTrip(regions: RegionMap, obj: map<string, string>, keys: seq<string>)
    requires Saves(regions, obj, ToHex) && Lists(keys, obj)
    ensures LoadRegions(obj, keys, map[]) == Some(regions) <==> forall a | a in regions :: a < LONG_LONG_LIMIT
  {
    if forall a | a in regions :: a < LONG_LONG_LIMIT {
      RegionsLoaded(regions, obj, keys, map[]);
    } else {
      var a :| a in regions && a >= LONG_LONG_LIMIT;
      LargeAddressUnreadable(regions, obj, keys, map[], a);
    }
  }

  /** The table without the addresses that have no tags left: their entries do not survive. */
  function NonEmpty(tags: Tags): Tags {
    map a | a in tags && tags[a] != [] :: tags[a]
  }

  /** Tags that are not taken arrive in order. */
  lemma {:induction false} AddAllFresh(acc: Tags, done: seq<string>, list: seq<string>, address: nat)
    requires address !in acc && NoRepeats(list)
    requires forall t | t in list :: t !in done && !Taken(acc, t)
    requires list != [] || done != []
    ensures AddAll(if done == [] then acc else acc[address := done], list, address) == acc[address := done + list]
    decreases |list|
  {
    if list == [] {
      assert done + list == done;
    } else {
      var tags := if done == [] then acc else acc[address := done];
      var tag := list[0];
      assert tag in list;
      assert forall b | b in tags :: tag !in tags[b];
      assert TagsAt(tags, address) == done;
      assert WithTag(tags, tag, address) == acc[address := done + [tag]];
      AddAllFresh(acc, done + [tag], list[1..], address);
      assert done + [tag] + list[1..] == done + list;
    }
  }

  lemma {:induction false} TagsLoaded(tags: Tags, obj: map<string, seq<string>>, keys: seq<string>, acc: Tags)
    requires Unique(tags) && Saves(tags, obj, TagArray)
    requires forall a | a in tags :: a < LONG_LONG_LIMIT
    requires forall k | k in keys :: k in obj
    requires forall i, j | 0 <= i < j < |keys| :: keys[i] != keys[j]
    requires forall a | a in acc :: a in NonEmpty(tags) && acc[a] == tags[a] && Decimal(a) !in keys
    requires forall a | a in NonEmpty(tags) :: a in acc || Decimal(a) in keys
    ensures LoadTags(obj, keys, acc) == Some(NonEmpty(tags))
    decreases |keys|
  {
    if keys == [] {
      assert acc == NonEmpty(tags);
    } else {
      assert keys[0] in keys;
      var a :| a in tags && keys[0] == Decimal(a);
      hide Decimal, DecimalValue, AddAll, Unique;
      DecimalRoundTrip(a);
      var list := tags[a];
      var next := if list == [] then acc else acc[a := list];
      TagsOfOneAddress(tags, acc, a);
      TagStep(tags, obj, keys, acc, a, next);
      hide LoadTags, Saves, ParseKey, NonEmpty;
      KeysLeft(tags, obj, keys, acc, next, a);
      TagsLoaded(tags, obj, keys[1..], next);
    }
  }

  lemma TagStep(tags: Tags, obj: map<string, seq<string>>, keys: seq<string>, acc: Tags, a: nat, next: Tags)
    requires keys != [] && (forall k | k in keys :: k in obj) && a in tags && a < LONG_LONG_LIMIT
    requires keys[0] == Decimal(a) && obj[keys[0]] == tags[a] && next == AddAll(acc, tags[a], a)
    ensures forall k | k in keys[1..] :: k in obj
    ensures LoadTags(obj, keys, acc) == LoadTags(obj, keys[1..], next)
  {
    hide Decimal, DecimalValue, AddAll;
    DecimalRoundTrip(a);
  }

  lemma KeysLeft(tags: Tags, obj: map<string, seq<string>>, keys: seq<string>, acc: Tags, next: Tags, a: nat)
    requires keys != [] && a in tags && keys[0] == Decimal(a)
    requires forall i, j | 0 <= i < j < |keys| :: keys[i] != keys[j]
    requires forall b | b in acc :: Decimal(b) !in keys
    requires forall b | b in NonEmpty(tags) :: b in acc || Decimal(b) in keys
    requires next == if tags[a] == [] then acc else acc[a := tags[a]]
    requires forall b | b in acc :: b in NonEmpty(tags) && acc[b] == tags[b]
    requires forall k | k in keys :: k in obj
    ensures forall k | k in keys[1..] :: k in obj
    ensures forall i, j | 0 <= i < j < |keys[1..]| :: keys[1..][i] != keys[1..][j]
    ensures forall b | b in next :: b in NonEmpty(tags) && next[b] == tags[b]
    ensures forall b | b in next :: Decimal(b) !in keys[1..]
    ensures forall b | b in NonEmpty(tags) :: b in next || Decimal(b) in keys[1..]
  {
    hide Decimal;
    forall b | b in NonEmpty(tags) ensures b in next || Decimal(b) in keys[1..] {
      if Decimal(b) == Decimal(a) { DecimalInjective(a, b); }
    }
  }

  lemma TagsOfOneAddress(tags: Tags, acc: Tags, a: nat)
    requires Unique(tags) && a in tags && a !in acc
    requires forall b | b in acc :: b in tags && acc[b] == tags[b]
    ensures AddAll(acc, tags[a], a) == if tags[a] == [] then acc else acc[a := tags[a]]
  {
    var list := tags[a];
    if list != [] {
      forall t | t in list ensures !Taken(acc, t) {
        assert forall b | b in acc :: t !in acc[b];
      }
      AddAllFresh(acc, [], list, a);
      assert [] + list == list;
    }
  }

  /** A key beyond the signed range makes the tags unreadable, too. */
  lemma {:induction false} LargeTagAddressUnreadable(tags: Tags, obj: map<string, seq<string>>, keys: seq<string>, acc: Tags, a: nat)
    requires Saves(tags, obj, TagArray) && a in tags && a >= LONG_LONG_LIMIT
    requires (forall k | k in keys :: k in obj) && Decimal(a) in keys
    ensures LoadTags(obj, keys, acc) == None
    decreases |keys|
  {
    hide AddAll, DecimalValue, Decimal;
    DecimalRoundTrip(a);
    if keys[0] != Decimal(a) && ParseKey(keys[0]).Some? {
      LargeTagAddressUnreadable(tags, obj, keys[1..], AddAll(acc, obj[keys[0]], ParseKey(keys[0]).value), a);
    }
  }

  /**
   Saved tags are read back, whatever the order of the keys, but for addresses without tags; exactly when
   all addresses are signed, those without tags included.
   */
  lemma TagsRoundTrip(tags: Tags, obj: map<string, seq<string>>, keys: seq<string>)
    requires Unique(tags) && Saves(tags, obj, TagArray) && Lists(keys, obj)
    requires forall i, j | 0 <= i < j < |keys| :: keys[i] != keys[j]
    ensures LoadTags(obj, keys, map[]) == Some(NonEmpty(tags)) <==> forall a | a in tags :: a < LONG_LONG_LIMIT
    ensures LoadTags(obj, keys, map[]).Some? <==> forall a | a in tags :: a < LONG_LONG_LIMIT
  {
    if forall a | a in tags :: a < LONG_LONG_LIMIT {
      TagsLoaded(tags, obj, keys, map[]);
    } else {
      var a :| a in tags && a >= LONG_LONG_LIMIT;
      LargeTagAddressUnreadable(tags, obj, keys, map[], a);
    }
  }
}
