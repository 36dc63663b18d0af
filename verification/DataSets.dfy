/** The variables of a template execution (f1g_data_set.c): an array of keys that doubles when it
    is full, each key owning a value buffer that is replaced when it is too small. */
module DataSets {
  import opened Common

  const MAX_KEY_LEN := 64
  const KEY_VAL_SIZE := 128

  /** key_info_t: `val` is the whole buffer, of which the first `valLen` characters are in use. */
  datatype Key = Key(name: string, valLen: nat, val: seq<char>)

  datatype Entry = Entry(name: string, value: string)

  /** strncasecmp(key, name, strlen(key)) == 0 */
  predicate PrefixIgnoringCase(key: string, name: string) {
    |key| <= |name| && forall i | 0 <= i < |key| :: Lower(key[i]) == Lower(name[i])
  }

  /** The value of the first entry whose name begins with `key`, ignoring case. */
  function Lookup(entries: seq<Entry>, key: string): Option<string> {
    if entries == [] then None
    else if PrefixIgnoringCase(key, entries[0].name) then Some(entries[0].value)
    else Lookup(entries[1..], key)
  }

  /** Lookup meets the wording of its comment. */
  lemma {:induction false} LookupFindsFirst(entries: seq<Entry>, key: string, i: nat)
    requires i <= |entries|
    requires forall j | 0 <= j < i :: !PrefixIgnoringCase(key, entries[j].name)
    ensures i == |entries| ==> Lookup(entries, key) == None
    ensures i < |entries| && PrefixIgnoringCase(key, entries[i].name) ==> Lookup(entries, key) == Some(entries[i].value)
  {
    if i > 0 {
      LookupFindsFirst(entries[1..], key, i - 1);
    }
  }

  /** A later variable never hides an earlier one. */
  lemma {:induction false} LookupAfterAppend(entries: seq<Entry>, e: Entry, key: string)
    ensures Lookup(entries + [e], key) ==
            if Lookup(entries, key).Some? then Lookup(entries, key)
            else if PrefixIgnoringCase(key, e.name) then Some(e.value) else None
  {
    if entries != [] {
      assert (entries + [e])[1..] == entries[1..] + [e];
      LookupAfterAppend(entries[1..], e, key);
    }
  }

  predicate KeyOk(k: Key) {
    k.valLen <= |k.val|
  }

  function EntryOf(k: Key): Entry
    requires KeyOk(k)
  {
    Entry(k.name, k.val[..k.valLen])
  }

  function EntriesOf(ks: seq<Key>): (s: seq<Entry>)
    requires forall k | k in ks :: KeyOk(k)
    ensures |s| == |ks| && forall i | 0 <= i < |ks| :: s[i] == EntryOf(ks[i])
  {
    if ks == [] then [] else EntriesOf(ks[..|ks| - 1]) + [EntryOf(ks[|ks| - 1])]
  }

  class DataSet {
    var keyNum: nat
    var keys: array<Key>

    ghost predicate Valid()
      reads this, keys
    {
      && keyNum <= keys.Length
      && 0 < keys.Length
      && forall i | 0 <= i < keys.Length :: KeyOk(keys[i])
    }

    /** The variables added so far, oldest first. */
    ghost function Entries(): (s: seq<Entry>)
      requires Valid()
      reads this, keys
      ensures |s| == keyNum
    {
      EntriesOf(keys[..keyNum])
    }

    /** data_set_init; `fill` is what malloc leaves in the value buffers. */
    constructor (keySize: nat, fill: char)
      requires keySize > 0
      ensures Valid() && fresh(keys) && Entries() == []
    {
      keyNum := 0;
      keys := new Key[keySize](_ => Key("", 0, seq(KEY_VAL_SIZE, _ => fill)));
    }

    /** data_set_extent_cap: a new array of keys, the used ones copied, the others zeroed. */
    method ExtendKeys(size: nat)
      requires Valid() && keys.Length <= size
      modifies this`keys
      ensures Valid() && fresh(keys) && keys.Length == size
      ensures Entries() == old(Entries())
    {
      var bigger := new Key[size](_ => Key("", 0, []));
      forall i | 0 <= i < keyNum {
        bigger[i] := keys[i];
      }
      keys := bigger;
    }

    /** data_set_add_str_var: names of 1 to MAX_KEY_LEN characters are accepted; the array of keys
        may grow even when the name is then refused. */
    method AddStrVar(name: string, value: seq<char>) returns (status: Status)
      requires Valid() && '\0' !in name
      modifies this, keys
      ensures Valid() && (keys == old(keys) || fresh(keys))
      ensures status == Ok <==> 1 <= |name| <= 64
      ensures status == Ok ==> Entries() == old(Entries()) + [Entry(name, value)]
      ensures status == Err ==> Entries() == old(Entries())
    {
      if keyNum >= keys.Length {
        ExtendKeys(keys.Length * 2);
      }
      if |name| <= 0 || |name| > MAX_KEY_LEN {
        return Err;
      }
      var k := keys[keyNum].(name := name);
      if |k.val| < |value| {
        k := k.(val := Enlarge(k.val, k.valLen, |value| + |value| / 2));
      }
      keys[keyNum] := k.(val := value + k.val[|value|..], valLen := |value|);
      keyNum := keyNum + 1;
      status := Ok;
      assert EntryOf(keys[keyNum - 1]) == Entry(name, value);
    }

    /** key_info_extent_cap: a zeroed buffer holding what was in use of the old one. */
    static function Enlarge(val: seq<char>, used: nat, size: nat): (bigger: seq<char>)
      requires used <= |val| <= size
      ensures |bigger| == size && bigger[..used] == val[..used]
      ensures forall i | used <= i < size :: bigger[i] == '\0'
    {
      val[..used] + seq(size - used, _ => '\0')
    }

    /** data_set_get_val: the index of the first matching key, or -1. */
    method GetVal(key: string) returns (index: int)
      requires Valid()
      ensures -1 <= index < keyNum
      ensures Lookup(Entries(), key) == if index == -1 then None else Some(Entries()[index].value)
    {
      for i := 0 to keyNum
        invariant forall j | 0 <= j < i :: !PrefixIgnoringCase(key, keys[j].name)
      {
        if PrefixIgnoringCase(key, keys[i].name) {
          LookupFindsFirst(Entries(), key, i);
          return i;
        }
      }
      LookupFindsFirst(Entries(), key, keyNum);
      return -1;
    }
  }
}
