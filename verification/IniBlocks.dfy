/** What ini_read gets to see of a file that it reads in blocks (f1g_smart_conf.c), and when that is the
    file. */
module IniBlocks {
  import opened Common
  import opened BasicFuncs
  import opened Ini

  // ---------------------------------------------------------------- one block

  /** The whole lines at the front of a text. */
  function Lines(s: string): (r: string)
    ensures r <= s && (r == "" || r[|r| - 1] == '\n')
    ensures forall j | |r| <= j < |s| :: s[j] != '\n'
  {
    if s == "" || s[|s| - 1] == '\n' then s else Lines(s[..|s| - 1])
  }

  /** What one round handles: the buffer begins with `carry` and takes the next characters of the file,
      but only as many characters as were read are looked at.  A line without an end is dropped, unless
      the file ends with it. */
  function Part(file: string, carry: string, size: nat): (r: string)
    requires |carry| < size
    ensures |r| <= |file| && |r| <= size
  {
    var room := size - |carry|;
    if |file| <= room then (carry + file)[..|file|] else Lines((carry + file[..room])[..room])
  }

  /** The file behind it. */
  function Left(file: string, carry: string, size: nat): (r: string)
    requires |carry| < size
    ensures |r| < |file| || file == ""
    ensures |Part(file, carry, size)| + |r| <= |file|
  {
    var room := size - |carry|;
    if |file| <= room then "" else file[room..]
  }

  /** The character kept for the next round if the last character looked at was a line end, which is by
      then a NUL: that one or, if a character was carried before, the one behind it. */
  function Carried(file: string, carry: string, size: nat): (r: string)
    requires |carry| < size
    ensures |r| <= 1
  {
    var room := size - |carry|;
    if |file| <= room || (carry + file)[room - 1] != '\n' then ""
    else if carry == "" then "\0"
    else [(carry + file)[room]]
  }

  /** All that is handled of a file, with buffers of `size` characters. */
  function Seen(file: string, carry: string, size: nat): (r: string)
    requires |carry| <= 1 < size
    ensures |r| <= |file|
    decreases |file|
  {
    if file == "" then ""
    else Part(file, carry, size) + Seen(Left(file, carry, size), Carried(file, carry, size), size)
  }

  /** Seen for the last block. */
  lemma SeenLast(file: string, carry: string, size: nat)
    requires |carry| <= 1 < size && |file| + |carry| <= size
    ensures Seen(file, carry, size) == (carry + file)[..|file|]
  {
    if file != "" {
      assert Seen("", "", size) == "";
    }
  }

  /** Seen for a block that is not the last one, and for the rest. */
  lemma SeenMore(file: string, carry: string, size: nat, looked: string, rest: string, next: string)
    requires |carry| <= 1 < size < |file| + |carry|
    requires looked == (carry + file)[..size - |carry|] && rest == file[size - |carry|..]
    requires next == Carried(file, carry, size)
    ensures Seen(file, carry, size) == Lines(looked) + Seen(rest, next, size)
  {
    var room := size - |carry|;
    assert (carry + file[..room])[..room] == looked;
    assert Part(file, carry, size) == Lines(looked) && Left(file, carry, size) == rest;
  }

  /** Block by block: a full block is handled up to its last line end; if that is its last character, the
      next round begins with a NUL. */
  lemma FirstBlock(block: string, rest: string, size: nat)
    requires 1 < size == |block| && rest != ""
    ensures block[size - 1] == '\n' ==> Seen(block + rest, "", size) == block + Seen(rest, "\0", size)
    ensures block[size - 1] != '\n' ==> Seen(block + rest, "", size) == Lines(block) + Seen(rest, "", size)
  {
    var file, next := block + rest, if block[size - 1] == '\n' then "\0" else "";
    assert "" + file == file && file[..size] == block && file[size..] == rest;
    SeenMore(file, "", size, block, rest, next);
  }

  /** A round that begins with a carried character reads one character more than it handles; that one is
      carried in its turn if the character in front of it is a line end, and is lost otherwise. */
  lemma NextBlock(c: char, block: string, x: char, rest: string, size: nat)
    requires 2 < size == |block| + 2 && rest != ""
    ensures block[|block| - 1] == '\n' ==>
              Seen(block + [x] + rest, [c], size) == [c] + block + Seen(rest, [x], size)
    ensures block[|block| - 1] != '\n' ==>
              Seen(block + [x] + rest, [c], size) == Lines([c] + block) + Seen(rest, "", size)
  {
    var file, next := block + [x] + rest, if block[|block| - 1] == '\n' then [x] else "";
    var s := [c] + file;
    assert s[..size - 1] == [c] + block && file[size - 1..] == rest && s[size - 1] == x;
    assert s[size - 2] == block[|block| - 1];
    SeenMore(file, [c], size, [c] + block, rest, next);
  }

  // ---------------------------------------------------------------- what is lost

  predicate Nulls(s: string) {
    forall i | 0 <= i < |s| :: s[i] == '\0'
  }

  lemma NullsInFront(s: string)
    ensures ("\0" + s)[..|s|] == s <==> Nulls(s)
  {
    var t := "\0" + s;
    if t[..|s|] == s {
      NullsUpTo(s, |s|);
    } else {
      assert exists i :: 0 <= i < |s| && t[..|s|][i] != s[i];
    }
  }

  lemma {:induction false} NullsUpTo(s: string, n: nat)
    requires n <= |s| && forall i | 0 <= i < n :: ("\0" + s)[i] == s[i]
    ensures forall i | 0 <= i < n :: s[i] == '\0'
  {
    if n > 0 {
      NullsUpTo(s, n - 1);
      assert ("\0" + s)[n - 1] == s[n - 1];
    }
  }

  lemma StartsWithNulls(rest: string, looked: string, more: string)
    requires looked != "" && |looked| <= |rest| && looked == ("\0" + rest)[..|looked|] && rest == looked + more
    ensures looked[|looked| - 1] == '\0'
  {
    var room := |looked|;
    forall i | 0 <= i < room
      ensures ("\0" + rest)[i] == rest[i]
    {
      assert looked[i] == ("\0" + rest)[i];
    }
    NullsUpTo(rest, room);
  }

  /** Behind a block that ends with a line, the rest is seen as it is only if there is no difference
      between it and the NUL that was carried. */
  lemma BehindCut(rest: string, size: nat)
    requires rest != "" && 1 < size
    ensures Seen(rest, "\0", size) == rest <==> |rest| < size && Nulls(rest)
  {
    var room := size - 1;
    if |rest| <= room {
      SeenLast(rest, "\0", size);
      NullsInFront(rest);
    } else {
      var looked, next := ("\0" + rest)[..room], Carried(rest, "\0", size);
      var more := Seen(rest[room..], next, size);
      SeenMore(rest, "\0", size, looked, rest[room..], next);
      if Lines(looked) + more == rest {
        assert |Lines(looked)| == room;
        StartsWithNulls(rest, looked, more);
        assert false;
      }
    }
  }

  lemma LongFile(file: string, size: nat, block: string, rest: string)
    requires 1 < size == |block| && rest != "" && file == block + rest
    ensures Seen(file, "", size) == file <==> block[size - 1] == '\n' && |rest| < size && Nulls(rest)
  {
    var next := if block[size - 1] == '\n' then "\0" else "";
    var more := Seen(rest, next, size);
    assert "" + file == file && file[..size] == block && file[size..] == rest;
    SeenMore(file, "", size, block, rest, next);
    if block[size - 1] == '\n' {
      BehindCut(rest, size);
      SameBehind(block, more, rest);
    } else {
      assert |Lines(block)| < size;
    }
  }

  /** A file is seen as it is exactly if it fits into one block, or the first block ends with a line and
      only NULs follow, fewer than a block.  A text file, that has no NULs, has to fit. */
  lemma SeenAsItIs(file: string, size: nat)
    requires 1 < size
    ensures Seen(file, "", size) == file <==>
              |file| <= size || (|file| < 2 * size && file[size - 1] == '\n' && Nulls(file[size..]))
    ensures '\0' !in file ==> (Seen(file, "", size) == file <==> |file| <= size)
  {
    if |file| <= size {
      SeenLast(file, "", size);
      assert "" + file == file && file[..|file|] == file;
    } else {
      LongFile(file, size, file[..size], file[size..]);
      assert file[size..][0] == file[size];
    }
  }

  lemma SameBehind(a: string, b: string, c: string)
    ensures a + b == a + c <==> b == c
  {
    assert (a + b)[|a|..] == b && (a + c)[|a|..] == c;
  }

  /** A first block that ends with a line is seen, and of the rest all but the last character, behind the
      NUL. */
  lemma SeenBehindLine(block: string, rest: string, size: nat)
    requires 1 < size == |block| && block[size - 1] == '\n' && 0 < |rest| < size
    ensures Seen(block + rest, "", size) == block + ("\0" + rest)[..|rest|]
  {
    var file := block + rest;
    assert "" + file == file && file[..size] == block && file[size..] == rest;
    SeenMore(file, "", size, block, rest, "\0");
    SeenLast(rest, "\0", size);
  }

  /** With any block size: a section behind a comment that fills the first block is lost. */
  lemma SectionBehindBlockIsLost(size: nat)
    requires size >= 5
    ensures
      var file := "#" + Spaces(size - 2) + "\n[a]\n";
      && ReadText(file, Conf([], 1)) == Good(Conf([Section("a", [])], 1))
      && ReadText(Seen(file, "", size), Conf([], 1)) == Good(Conf([], 1))
  {
    var comment := "#" + Spaces(size - 2);
    var file, rest := comment + "\n[a]\n", "[a]\n";
    assert file == comment + "\n" + rest;
    SeenBehindLine(comment + "\n", rest, size);
    assert ("\0" + rest)[..4] == "\0[a]";
    CommentIsSkipped(comment, rest, Conf([], 1));
    CommentIsSkipped(comment, "\0[a]", Conf([], 1));
    SectionIsRead();
    NullIsSkipped();
  }

  lemma CommentIsSkipped(comment: string, rest: string, c: Conf)
    requires comment != "" && comment[0] == '#' && '\n' !in comment
    ensures ReadText(comment + "\n" + rest, c) == ReadText(rest, c)
  {
    var text := comment + "\n" + rest;
    assert text == comment + ("\n" + rest);
    CharIsFound(comment, '\n', rest);
    assert text[..|comment|] == comment && text[|comment| + 1..] == rest;
    assert CStr(comment)[0] == '#';
  }

  lemma SectionIsRead()
    ensures ReadText("[a]\n", Conf([], 1)) == Good(Conf([Section("a", [])], 1))
  {
    var row, c := SectionRow(0, "a", ""), Conf([], 1);
    assert RowText(row) == "[a]" && Text([row], true) == "[a]\n" && [row][1..] == [];
    assert c.secs + [Section("a", [])] == [Section("a", [])];
    TextIsRows([row], true, c);
    assert Step(c, Meant(row)) == Good(Conf([Section("a", [])], 1));
    assert ReadRows([], Conf([Section("a", [])], 1)) == Good(Conf([Section("a", [])], 1));
  }

  lemma NullIsSkipped()
    ensures ReadText("\0[a]", Conf([], 1)) == Good(Conf([], 1))
  {
    CharIsNotFound("\0[a]", '\n');
    assert CStr("\0[a]") == "";
  }

  // ---------------------------------------------------------------- reading part by part

  /** A text that begins with whole lines is read part by part. */
  lemma {:induction false} ReadsInTurn(a: string, b: string, c: Conf)
    requires a == "" || a[|a| - 1] == '\n'
    ensures ReadText(a + b, c) ==
            match ReadText(a, c)
            case Good(d) => ReadText(b, d)
            case other => other
    decreases |a|
  {
    if a == "" {
      assert a + b == b;
    } else {
      var k := FirstLineOf(a, b);
      match Step(c, Classify(CStr(a[..k])))
      case Good(d) => ReadsInTurn(a[k + 1..], b, d);
      case _ =>
    }
  }

  lemma FirstLineOf(a: string, b: string) returns (k: nat)
    requires a != "" && a[|a| - 1] == '\n'
    ensures k < |a| && FirstLine(a) == a[..k] == FirstLine(a + b)
    ensures AfterLine(a) == a[k + 1..] && AfterLine(a + b) == a[k + 1..] + b
    ensures a[k + 1..] == "" || a[k + 1..][|a| - k - 2] == '\n'
  {
    FindIsFirst(a, "\n");
    assert a[|a| - 1..|a|] == "\n" && At(a, |a| - 1, "\n");
    k := Find(a, "\n");
    assert (a + b)[k..k + 1] == a[k..k + 1];
    forall j: nat | j < k
      ensures !At(a + b, j, "\n")
    {
      assert (a + b)[j..j + 1] == a[j..j + 1];
      assert !At(a, j, "\n");
    }
    FindIs(a + b, "\n", k);
    assert (a + b)[..k] == a[..k] && (a + b)[k + 1..] == a[k + 1..] + b;
  }
}
