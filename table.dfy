/** The module-level interface table `interfaceList` and the operations of
    the extension that read or write it: filling it while the menu is
    rebuilt, issuing the switch command from it, and clearing every flag
    when the VPN is disabled. */
module Table {
  import opened Text
  import opened Probe
  import opened Switch

  /** One interface row of the dropdown menu: its name and its ornament. */
  datatype MenuEntry = MenuEntry(name: string, ornament: Ornament)

  /** The key order after a rebuild over `lines`: the old keys, then every
      non-empty line not yet a key, where it first appears. */
  function Extend(keys: seq<string>, lines: seq<string>): seq<string>
    decreases |lines|
  {
    if lines == [] then keys
    else Extend(if lines[0] != "" && lines[0] !in keys then keys + [lines[0]] else keys, lines[1..])
  }

  /** The flags after the population loop has run over `lines`: each
      non-empty line in turn stores its probe's classification under its
      name. */
  function Populate(flags: map<string, Flag>, lines: seq<string>, probe: string -> Option<string>): map<string, Flag>
    decreases |lines|
  {
    if lines == [] then flags
    else
      var before := Populate(flags, lines[..|lines| - 1], probe);
      var l := lines[|lines| - 1];
      if l != "" then before[l := Classify(probe(l))] else before
  }

  /** The interface rows added while rebuilding: one per non-empty line, in
      listing order, duplicates included, each with the ornament of the flag
      just stored for it. */
  function Entries(lines: seq<string>, probe: string -> Option<string>): seq<MenuEntry>
    decreases |lines|
  {
    if lines == [] then []
    else
      var l := lines[|lines| - 1];
      Entries(lines[..|lines| - 1], probe)
      + (if l != "" then [MenuEntry(l, OrnamentFor(Classify(probe(l))))] else [])
  }

  /** The rows are exactly the non-empty lines, in listing order, each with
      the ornament of its own probe's classification. */
  lemma {:induction false} EntriesRows(lines: seq<string>, probe: string -> Option<string>)
    ensures |Entries(lines, probe)| == |NonEmpty(lines)|
    ensures forall i :: 0 <= i < |Entries(lines, probe)| ==>
      Entries(lines, probe)[i].name == NonEmpty(lines)[i] &&
      Entries(lines, probe)[i].ornament == OrnamentFor(Classify(probe(NonEmpty(lines)[i])))
    decreases |lines|
  {
    if lines != [] {
      var front := lines[..|lines| - 1];
      var l := lines[|lines| - 1];
      EntriesRows(front, probe);
      assert lines == front + [l];
      NonEmptyAppend(front, l);
    }
  }

  /** The flags after `disableWireguard`'s loop: same keys, all `false`. */
  function AllInactive(flags: map<string, Flag>): map<string, Flag> {
    map k | k in flags :: Inactive
  }

  /** A rebuild keeps the old keys in front and in order, adds exactly the
      non-empty lines that were not keys yet, and never repeats a key. */
  lemma {:induction false} ExtendKeys(keys: seq<string>, lines: seq<string>)
    ensures |Extend(keys, lines)| >= |keys| && Extend(keys, lines)[..|keys|] == keys
    ensures forall x :: x in Extend(keys, lines) <==> x in keys || (x in lines && x != "")
    ensures forall p :: |keys| <= p < |Extend(keys, lines)| ==>
      Extend(keys, lines)[p] != "" && Extend(keys, lines)[p] !in keys
    ensures Distinct(keys) ==> Distinct(Extend(keys, lines))
    decreases |lines|
  {
    if lines != [] {
      var l := lines[0];
      var next := if l != "" && l !in keys then keys + [l] else keys;
      ExtendKeys(next, lines[1..]);
      assert next[..|keys|] == keys;
      var r := Extend(next, lines[1..]);
      assert r[..|keys|] == r[..|next|][..|keys|];
      assert lines == [l] + lines[1..];
      if Distinct(keys) {
        assert Distinct(next) by {
          forall i, j | 0 <= i < j < |next| ensures next[i] != next[j] {
            if j == |keys| { assert next[j] == l && next[i] == keys[i]; }
          }
        }
      }
    }
  }

  /** `x` occurs in `lines` before any occurrence of `y`. */
  predicate ListedBefore(lines: seq<string>, x: string, y: string) {
    exists p :: 0 <= p < |lines| && lines[p] == x && forall q :: 0 <= q <= p ==> lines[q] != y
  }

  /** The keys a rebuild adds come in the order in which the listing first
      mentions them. */
  lemma {:induction false} ExtendOrder(keys: seq<string>, lines: seq<string>, i: int, j: int)
    requires Distinct(keys)
    requires |keys| <= i < j < |Extend(keys, lines)|
    ensures ListedBefore(lines, Extend(keys, lines)[i], Extend(keys, lines)[j])
    decreases |lines|
  {
    var l := lines[0];
    var next := if l != "" && l !in keys then keys + [l] else keys;
    var r := Extend(next, lines[1..]);
    ExtendKeys(keys, lines);
    ExtendKeys(next, lines[1..]);
    assert Distinct(r);
    if next == keys + [l] && i == |keys| {
      assert r[i] == next[i] == l;
      assert r[j] != l;
      assert lines[0] == r[i] && forall q :: 0 <= q <= 0 ==> lines[q] != r[j];
    } else {
      assert Distinct(next) by {
        forall a, b | 0 <= a < b < |next| ensures next[a] != next[b] {
          assert next[a] == r[a] && next[b] == r[b];
        }
      }
      assert |next| <= i;
      ExtendOrder(next, lines[1..], i, j);
      var p :| 0 <= p < |lines[1..]| && lines[1..][p] == r[i] && forall q :: 0 <= q <= p ==> lines[1..][q] != r[j];
      assert lines[0] != r[j];
      assert lines[p + 1] == r[i];
      forall q | 0 <= q <= p + 1 ensures lines[q] != r[j] {
        if q > 0 { assert lines[q] == lines[1..][q - 1]; }
      }
    }
  }

  /** A rebuild removes nothing; every listed name maps to its own probe's
      classification; every name it does not list keeps its flag; empty
      lines neither add nor change an entry. */
  lemma {:induction false} PopulateFlags(flags: map<string, Flag>, lines: seq<string>, probe: string -> Option<string>)
    ensures forall k :: k in Populate(flags, lines, probe) <==> k in flags || (k in lines && k != "")
    ensures forall k :: k in lines && k != "" ==> Populate(flags, lines, probe)[k] == Classify(probe(k))
    ensures forall k :: k in flags && (k !in lines || k == "") ==> Populate(flags, lines, probe)[k] == flags[k]
    ensures ("" in Populate(flags, lines, probe)) == ("" in flags)
    decreases |lines|
  {
    if lines != [] {
      var front := lines[..|lines| - 1];
      PopulateFlags(flags, front, probe);
      assert lines == front + [lines[|lines| - 1]];
    }
  }

  /** After `disableWireguard` and the rebuild it triggers, every entry the
      new listing does not mention is `false`, and the table still has every
      key it had. */
  lemma DisabledStayInactive(flags: map<string, Flag>, lines: seq<string>, probe: string -> Option<string>)
    ensures flags.Keys <= Populate(AllInactive(flags), lines, probe).Keys
    ensures forall k :: k in flags && k !in lines ==> Populate(AllInactive(flags), lines, probe)[k] == Inactive
  {
    PopulateFlags(AllInactive(flags), lines, probe);
  }

  /** `interfaceList`: the ordered keys of the object and their flags. */
  class InterfaceTable {
    var keys: seq<string>
    var flags: map<string, Flag>

    /** The keys are the object's property names, each once; the
        population loop never stores under the empty name. */
    ghost predicate Valid()
      reads this
    {
      Distinct(keys) && "" !in keys && forall k :: k in flags <==> k in keys
    }

    /** `const interfaceList = {}` */
    constructor ()
      ensures Valid() && keys == [] && flags == map[]
    {
      keys := [];
      flags := map[];
    }

    /** The ornament `makeInterfaceMenuItem` gives the item of `name`: the
        dot exactly when the table maps it to `true`. */
    function OrnamentOf(name: string): (o: Ornament)
      reads this
      ensures o == Dot <==> name in flags && flags[name] == Active
      ensures name !in flags ==> o == NoOrnament
    {
      OrnamentFor(Lookup(flags, name))
    }

    /** `switchWireguardInterfaceTo`: the argument string for the switch
        script. It reads the table and writes nothing. */
    method SwitchWireguardInterfaceTo(target: Option<string>) returns (chain: string)
      ensures chain == Spaced(SwitchTokens(target, keys, flags))
    {
      chain := "";
      if target.Some? {
        chain := chain + target.value + " ";
      } else {
        chain := chain + "$ ";
      }
      var names := keys;
      ghost var tokens := SwitchTokens(target, names, flags);
      assert tokens[1..] == Downs(target, names, flags);
      var i := 0;
      while i < |names|
        invariant 0 <= i <= |names|
        invariant chain + Spaced(Downs(target, names[i..], flags)) == Spaced(tokens)
      {
        var inter := names[i];
        ghost var rest := Downs(target, names[i + 1..], flags);
        assert names[i..] == [inter] + names[i + 1..];
        ghost var before := chain;
        if Truthy(Lookup(flags, inter)) && (target.None? || inter != target.value) {
          assert Downs(target, names[i..], flags) == [inter] + rest;
          chain := chain + inter + " ";
          assert Spaced([inter] + rest) == inter + " " + Spaced(rest);
          assert chain + Spaced(rest) == before + Spaced([inter] + rest);
        } else if target.None? {
          assert Downs(target, names[i..], flags) == [inter] + rest;
          chain := chain + inter + " ";
          assert Spaced([inter] + rest) == inter + " " + Spaced(rest);
          assert chain + Spaced(rest) == before + Spaced([inter] + rest);
        } else {
          assert Downs(target, names[i..], flags) == rest;
        }
        i := i + 1;
      }
    }

    /** The property assignment `interfaceList[name] = flag`: a new name
        becomes the last key, an existing one keeps its place. */
    method Store(name: string, flag: Flag)
      requires Valid()
      requires name != ""
      modifies this
      ensures Valid()
      ensures keys == if name in old(keys) then old(keys) else old(keys) + [name]
      ensures flags == old(flags)[name := flag]
    {
      if name !in flags {
        keys := keys + [name];
      }
      flags := flags[name := flag];
    }

    /** `_buildMenu` as far as the table is concerned: split the listing
        into lines and store each non-empty line's probe result under that
        name, adding it as a new key when it is not one yet. Returns whether
        the rebuild got past its two throwing steps, and the interface rows
        of the menu. `listing` is what the listing helper returned (`None`
        for `undefined`, on which `split` throws); `ipReplyParses` says
        whether `JSON.parse` accepted the address service's reply in
        `getIPAddr`, which runs before the loop and throws otherwise. */
    method BuildMenu(listing: Option<string>, ipReplyParses: bool, probe: string -> Option<string>)
      returns (completed: bool, items: seq<MenuEntry>)
      requires Valid()
      modifies this
      ensures Valid()
      ensures completed <==> listing.Some? && ipReplyParses
      ensures !completed ==> keys == old(keys) && flags == old(flags) && items == []
      ensures completed ==> keys == Extend(old(keys), Split(listing.value, '\n'))
      ensures completed ==> flags == Populate(old(flags), Split(listing.value, '\n'), probe)
      ensures completed ==> items == Entries(Split(listing.value, '\n'), probe)
    {
      items := [];
      if listing.None? || !ipReplyParses {
        return false, items;
      }
      completed := true;
      var lines := Split(listing.value, '\n');
      ghost var keys0, flags0 := keys, flags;
      items := [];
      var i := 0;
      assert lines[..0] == [];
      while i < |lines|
        invariant 0 <= i <= |lines|
        invariant Valid()
        invariant Extend(keys, lines[i..]) == Extend(keys0, lines)
        invariant flags == Populate(flags0, lines[..i], probe)
        invariant items == Entries(lines[..i], probe)
      {
        var inter := lines[i];
        assert lines[i..] == [inter] + lines[i + 1..];
        assert lines[..i + 1][..i] == lines[..i];
        var rest := lines[i + 1..];
        if inter != "" {
          ghost var entry := MenuEntry(inter, OrnamentFor(Classify(probe(inter))));
          assert Extend(keys, lines[i..]) == Extend(if inter in keys then keys else keys + [inter], rest);
          assert Populate(flags0, lines[..i + 1], probe) == flags[inter := Classify(probe(inter))];
          Store(inter, Classify(probe(inter)));
          assert OrnamentOf(inter) == entry.ornament;
          items := items + [MenuEntry(inter, OrnamentOf(inter))];
        } else {
          assert Extend(keys, lines[i..]) == Extend(keys, rest);
          assert Populate(flags0, lines[..i + 1], probe) == flags;
        }
        i := i + 1;
      }
      assert lines[i..] == [] && lines[..i] == lines;
    }

    /** The loop of `disableWireguard` that sets every flag to `false`. */
    method ResetFlags()
      requires Valid()
      modifies this
      ensures Valid()
      ensures keys == old(keys)
      ensures flags == AllInactive(old(flags))
    {
      var names := keys;
      var i := 0;
      while i < |names|
        invariant 0 <= i <= |names|
        invariant keys == names && Valid()
        invariant flags.Keys == old(flags).Keys
        invariant forall k :: k in flags ==> flags[k] == if k in names[..i] then Inactive else old(flags)[k]
      {
        assert names[..i + 1] == names[..i] + [names[i]];
        flags := flags[names[i] := Inactive];
        i := i + 1;
      }
      assert names[..i] == names;
    }

    /** `disableWireguard`: issue the switch with no target, so that the
        script brings every key down, then clear every flag and rebuild the
        menu from a fresh listing. When the rebuild throws before its loop,
        the table is left with every flag cleared. */
    method DisableWireguard(listing: Option<string>, ipReplyParses: bool, probe: string -> Option<string>)
      returns (chain: string, completed: bool, items: seq<MenuEntry>)
      requires Valid()
      modifies this
      ensures Valid()
      ensures chain == Spaced(["$"] + old(keys))
      ensures completed <==> listing.Some? && ipReplyParses
      ensures !completed ==> keys == old(keys) && flags == AllInactive(old(flags)) && items == []
      ensures completed ==> keys == Extend(old(keys), Split(listing.value, '\n'))
      ensures completed ==> flags == Populate(AllInactive(old(flags)), Split(listing.value, '\n'), probe)
      ensures completed ==> items == Entries(Split(listing.value, '\n'), probe)
    {
      chain := SwitchWireguardInterfaceTo(None);
      SwitchToNothing(keys, flags);
      ResetFlags();
      completed, items := BuildMenu(listing, ipReplyParses, probe);
    }
  }
}
