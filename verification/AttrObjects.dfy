/** The JSON text of an attribute map is that of a tree: an object with its names and escaped values, in key order. */
module AttrObjects {
  import opened Wrappers
  import opened JsonScan
  import opened JsonStrings
  import opened AttrMaps
  import Trees = SplitterTree

  /** The members of the object. */
  ghost function Members(m: attr_map, keys: set<nat>): seq<Trees.Member>
    requires keys <= m.Keys
    decreases |keys|
  {
    if keys == {} then [] else
    var k := Least(keys);
    [Trees.Member(NameOf(k), Trees.Text("\"" + Escape(m[k]) + "\""))] + Members(m, keys - {k})
  }

  /** A name that needs no escape. */
  predicate PlainName(name: seq<byte>) {
    QUOTE !in name && BACKSLASH !in name
  }

  lemma {:induction false} NoQuoteBefore(s: string, i: nat, q: nat)
    requires i <= q < |s| && s[q] == QUOTE && forall k :: i <= k < q ==> s[k] != QUOTE && s[k] != BACKSLASH
    ensures ClosingQuote(s, i, false) == Some(q)
    decreases q - i
  {
    if i < q {
      NoQuoteBefore(s, i + 1, q);
    }
  }

  lemma PlainQuoted(name: seq<byte>)
    requires PlainName(name)
    ensures Trees.IsString("\"" + name + "\"")
  {
    var s := "\"" + name + "\"";
    assert forall k :: 1 <= k < |s| - 1 ==> s[k] == name[k - 1];
    NoQuoteBefore(s, 1, |s| - 1);
  }

  lemma PrintFirst(first: Trees.Member, rest: seq<Trees.Member>)
    ensures Trees.PrintAll(false, [first] + rest)
            == Trees.Label(false, first.name) + Trees.Print(first.value)
               + (if rest == [] then "" else "," + Trees.PrintAll(false, rest))
  {
    assert ([first] + rest)[1..] == rest;
  }

  lemma EntryIs(id: nat, value: seq<byte>)
    requires id != 0
    ensures Entry(id, value) == Trees.Label(false, NameOf(id)) + Trees.Print(Trees.Text("\"" + Escape(value) + "\""))
  {
    hide Escape, NameOf;
  }

  lemma {:induction false} TextIsPrinted(m: attr_map, keys: set<nat>)
    requires keys <= m.Keys && 0 !in keys
    ensures JsonText(m, keys) == Trees.PrintAll(false, Members(m, keys))
    decreases |keys|
  {
    hide Escape, NameOf, Entry, Trees.PrintAll, Trees.Print, Trees.Label;
    if keys == {} {
      assert Trees.PrintAll(false, []) == "" by { PrintNothing(); }
    } else {
      var k := Least(keys);
      var rest := keys - {k};
      TextIsPrinted(m, rest);
      var first := Trees.Member(NameOf(k), Trees.Text("\"" + Escape(m[k]) + "\""));
      PrintFirst(first, Members(m, rest));
      MembersNone(m, rest);
      EntryIs(k, m[k]);
    }
  }

  lemma PrintNothing()
    ensures Trees.PrintAll(false, []) == ""
  {
  }

  lemma MembersNone(m: attr_map, keys: set<nat>)
    requires keys <= m.Keys
    ensures Members(m, keys) == [] <==> keys == {}
  {
  }

  lemma {:induction false} MembersWellFormed(m: attr_map, keys: set<nat>)
    requires keys <= m.Keys && forall k :: k in keys ==> PlainName(NameOf(k))
    ensures Trees.WellFormedAll(false, Members(m, keys))
    decreases |keys|
  {
    hide Escape, NameOf;
    if keys != {} {
      var k := Least(keys);
      MembersWellFormed(m, keys - {k});
      PlainQuoted(NameOf(k));
      QuotedEnds(m[k], "");
      var token := "\"" + Escape(m[k]) + "\"";
      assert token + "" == token;
      assert Members(m, keys)[1..] == Members(m, keys - {k});
    }
  }

  /** In braces, the text of a map with plain names is a well-formed document, whatever the values. */
  lemma ObjectIsTree(m: attr_map)
    requires forall k :: k in m ==> k != 0 && PlainName(NameOf(k))
    ensures var v := Trees.Node(false, Members(m, m.Keys));
            Trees.WellFormed(v) && Trees.Print(v) == "{" + JsonText(m, m.Keys) + "}"
  {
    TextIsPrinted(m, m.Keys);
    MembersWellFormed(m, m.Keys);
  }
}
