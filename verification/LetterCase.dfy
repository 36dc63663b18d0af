/** Names in any letter case: what strcasecmp and strncasecmp make of the names of sections, items and
    variables, in terms of character codes. */
module LetterCase {
  import opened Common
  import opened DataSets
  import opened Ini

  /** The capital of a small letter, by its ASCII code. */
  function Capital(c: char): char {
    if 97 <= c as int <= 122 then (c as int - 32) as char else c
  }

  /** The small letter of a capital. */
  function Small(c: char): char {
    if 65 <= c as int <= 90 then (c as int + 32) as char else c
  }

  function Capitals(s: string): (r: string)
    ensures |r| == |s| && forall i | 0 <= i < |s| :: r[i] == Capital(s[i])
  {
    seq(|s|, i requires 0 <= i < |s| => Capital(s[i]))
  }

  function Smalls(s: string): (r: string)
    ensures |r| == |s| && forall i | 0 <= i < |s| :: r[i] == Small(s[i])
  {
    seq(|s|, i requires 0 <= i < |s| => Small(s[i]))
  }

  /** Equal, or the two cases of one letter. */
  predicate Cases(c: char, d: char) {
    c == d || (65 <= c as int <= 90 && d as int == c as int + 32) || (65 <= d as int <= 90 && c as int == d as int + 32)
  }

  /** Two names are the same exactly if they are so character by character. */
  lemma SameByCharacters(a: string, b: string)
    ensures SameName(a, b) <==> |a| == |b| && forall i | 0 <= i < |a| :: Cases(a[i], b[i])
  {
    forall c: char, d: char
      ensures Lower(c) == Lower(d) <==> Cases(c, d)
    {
    }
  }

  /** A key matches a name exactly if its characters are, one by one, those that begin the name. */
  lemma PrefixByCharacters(key: string, name: string)
    ensures PrefixIgnoringCase(key, name) <==> |key| <= |name| && forall i | 0 <= i < |key| :: Cases(key[i], name[i])
  {
    forall c: char, d: char
      ensures Lower(c) == Lower(d) <==> Cases(c, d)
    {
    }
  }

  lemma SameInAnyCase(a: string, b: string)
    ensures SameName(a, Capitals(b)) <==> SameName(a, b)
    ensures SameName(a, Smalls(b)) <==> SameName(a, b)
    ensures SameName(b, Capitals(b)) && SameName(b, Smalls(b))
  {
    SameByCharacters(b, Capitals(b));
    SameByCharacters(b, Smalls(b));
  }

  lemma {:induction false} ItemInAnyCase(items: seq<Item>, name: string)
    ensures FindInItems(items, Capitals(name)) == FindInItems(items, name)
    ensures FindInItems(items, Smalls(name)) == FindInItems(items, name)
  {
    if items != [] {
      SameInAnyCase(items[0].name, name);
      ItemInAnyCase(items[1..], name);
    }
  }

  /** find_item finds the same for names written in capitals, and for names in small letters. */
  lemma {:induction false} FindInAnyCase(secs: seq<Section>, sec: string, name: string)
    ensures FindItem(secs, Capitals(sec), Capitals(name)) == FindItem(secs, sec, name)
    ensures FindItem(secs, Smalls(sec), Smalls(name)) == FindItem(secs, sec, name)
  {
    if secs != [] {
      var n := |secs| - 1;
      SameInAnyCase(secs[n].name, sec);
      ItemInAnyCase(secs[n].items, name);
      FindInAnyCase(secs[..n], sec, name);
    }
  }

  lemma PrefixInAnyCase(key: string, name: string)
    ensures PrefixIgnoringCase(Capitals(key), name) <==> PrefixIgnoringCase(key, name)
    ensures PrefixIgnoringCase(Smalls(key), name) <==> PrefixIgnoringCase(key, name)
  {
    forall i | 0 <= i < |key|
      ensures Lower(Capitals(key)[i]) == Lower(key[i]) && Lower(Smalls(key)[i]) == Lower(key[i])
    {
    }
  }

  /** So does data_set_get_val. */
  lemma {:induction false} LookupInAnyCase(entries: seq<Entry>, key: string)
    ensures Lookup(entries, Capitals(key)) == Lookup(entries, key)
    ensures Lookup(entries, Smalls(key)) == Lookup(entries, key)
  {
    if entries != [] {
      PrefixInAnyCase(key, entries[0].name);
      LookupInAnyCase(entries[1..], key);
    }
  }

  /** Concretely: small names find what capitals name; but braces are not the small brackets, although
      their codes are 32 apart as well. */
  lemma ServerIsFound()
    ensures FindItem([Section("Server", [Item("Port", "80")])], "server", "PORT") == Some(Item("Port", "80"))
    ensures FindItem([Section("Server", [Item("Port", "80")])], "servers", "port") == None
    ensures Lookup([Entry("Name", "x")], "name") == Some("x") && Lookup([Entry("Name", "x")], "nAm") == Some("x")
    ensures Lookup([Entry("Name", "x")], "names") == None
    ensures !SameName("[", "{")
  {
    var secs := [Section("Server", [Item("Port", "80")])];
    assert secs[..0] == [] && secs[0].items[1..] == [];
    SameByCharacters("Server", "server");
    SameByCharacters("Server", "servers");
    SameByCharacters("Port", "PORT");
    SameByCharacters("Port", "port");
    SameByCharacters("[", "{");
    assert !Cases("["[0], "{"[0]);
    var entries := [Entry("Name", "x")];
    assert entries[1..] == [];
    PrefixByCharacters("name", "Name");
    PrefixByCharacters("nAm", "Name");
    PrefixByCharacters("names", "Name");
  }
}
