/** The grammar of templates and the meaning of references, with the characters written out. */
module TemplateLaws {
  import opened Common
  import opened DataSets
  import opened Templates

  /** The characters of a name: ASCII digits and letters, and * - . @ [ ] _ by their codes. */
  lemma NameCharsByCode(c: char)
    ensures
      var n := c as int;
      NameChar(c) <==> 48 <= n <= 57 || 65 <= n <= 90 || 97 <= n <= 122
                       || n == 42 || n == 45 || n == 46 || n == 64 || n == 91 || n == 93 || n == 95
  {
  }

  /** Which names a reference may have. */
  predicate GoodName(name: string) {
    1 <= |name| <= 64 && AllNameChars(name)
  }

  predicate AllNameChars(name: string) {
    forall i | 0 <= i < |name| :: NameChar(name[i])
  }

  /** Two flags are one, and a character that opens no reference stands for itself. */
  lemma PlainGrammar(c: char, rest: string)
    ensures Tokens("") == Some([])
    ensures Tokens("$$" + rest) == Prepend([Ch('$')], Tokens(rest))
    ensures c != '$' ==> Tokens([c] + rest) == Prepend([Ch(c)], Tokens(rest))
    ensures rest == "" || (rest[0] != '$' && rest[0] != '{') ==>
              Tokens("$" + rest) == Prepend([Ch('$')], Tokens(rest))
  {
    assert ("$$" + rest)[2..] == rest && ([c] + rest)[1..] == rest && ("$" + rest)[1..] == rest;
  }

  /** A name behind an open brace, and what ends it. */
  lemma OpenName(name: string, after: string)
    requires AllNameChars(name) && (after == "" || !NameChar(after[0]))
    ensures Tokens("${" + name + after) ==
            if after == "" then Some(Chars("${" + name + after))
            else if after[0] == '}' && GoodName(name) then Prepend([Ref(name)], Tokens(after[1..]))
            else None
  {
    var t := "${" + name + after;
    assert t[2..] == name + after;
    NameEnds(name, after);
    assert t[2..2 + |name|] == name;
    if after != "" {
      assert t[2 + |name|] == after[0] && t[3 + |name|..] == after[1..];
    }
  }

  lemma {:induction false} NameEnds(name: string, after: string)
    requires AllNameChars(name) && (after == "" || !NameChar(after[0]))
    ensures NameLength(name + after) == |name|
  {
    if name == "" {
      assert name + after == after;
    } else {
      assert (name + after)[1..] == name[1..] + after;
      NameEnds(name[1..], after);
    }
  }

  /** A name of 1 to 64 characters in braces behind a flag is a reference; an open brace behind a flag that is
      never closed stands for itself; anything else has no meaning. */
  lemma ReferenceGrammar(name: string, c: char, rest: string)
    requires AllNameChars(name)
    ensures Tokens("${" + name + ("}" + rest)) == if GoodName(name) then Prepend([Ref(name)], Tokens(rest)) else None
    ensures Tokens("${" + name) == Some(Chars("${" + name))
    ensures !NameChar(c) && c != '}' ==> Tokens("${" + name + ([c] + rest)) == None
  {
    OpenName(name, "");
    assert "${" + name + "" == "${" + name;
    OpenName(name, "}" + rest);
    assert ("}" + rest)[1..] == rest;
    if !NameChar(c) && c != '}' {
      OpenName(name, [c] + rest);
    }
  }

  /** A reference renders to the value of the first variable whose name begins with it, ignoring case, and
      to nothing if there is none. */
  lemma ReferenceRenders(name: string, entries: seq<Entry>, i: nat)
    requires i <= |entries| && forall j | 0 <= j < i :: !PrefixIgnoringCase(name, entries[j].name)
    ensures i == |entries| ==> Emit([Ref(name)], entries) == ""
    ensures i < |entries| && PrefixIgnoringCase(name, entries[i].name) ==>
              Emit([Ref(name)], entries) == entries[i].value
  {
    LookupFindsFirst(entries, name, i);
    assert [Ref(name)][..0] == [];
  }

  /** A text is refused exactly if it is empty or outside the grammar. */
  lemma RefusedExactly(text: string, entries: seq<Entry>)
    ensures Meaning(text, entries) == None <==> text == "" || Tokens(text) == None
  {
  }

  lemma {:induction false} PlainFront(pre: string, rest: string)
    requires '$' !in pre
    ensures Tokens(pre + rest) == Prepend(Chars(pre), Tokens(rest))
  {
    if pre == "" {
      assert pre + rest == rest && Chars("") == [];
      assert Tokens(rest).Some? ==> [] + Tokens(rest).value == Tokens(rest).value;
    } else {
      var c, tail := pre[0], pre[1..];
      PlainFront(tail, rest);
      PlainGrammar(c, tail + rest);
      FrontJoins(pre, c, tail, rest);
      PrependTwice(pre, Tokens(rest));
    }
  }

  lemma FrontJoins(pre: string, c: char, tail: string, rest: string)
    requires pre != "" && c == pre[0] && tail == pre[1..]
    ensures pre + rest == [c] + (tail + rest)
  {
  }

  lemma PrependTwice(pre: string, rest: Option<seq<Tok>>)
    requires pre != ""
    ensures Prepend([Ch(pre[0])], Prepend(Chars(pre[1..]), rest)) == Prepend(Chars(pre), rest)
  {
    assert Chars(pre) == [Ch(pre[0])] + Chars(pre[1..]);
    if rest.Some? {
      assert [Ch(pre[0])] + (Chars(pre[1..]) + rest.value) == Chars(pre) + rest.value;
    }
  }

  lemma TokensOfLine(pre: string, name: string)
    requires '$' !in pre && GoodName(name)
    ensures Tokens(pre + ("${" + name + ("}" + "\n"))) == Some(Chars(pre) + [Ref(name)] + [Ch('\n')])
  {
    PlainGrammar('\n', "");
    assert ['\n'] + "" == "\n" && [Ch('\n')] + [] == [Ch('\n')];
    ReferenceGrammar(name, '}', "\n");
    PlainFront(pre, "${" + name + ("}" + "\n"));
    assert Chars(pre) + ([Ref(name)] + [Ch('\n')]) == Chars(pre) + [Ref(name)] + [Ch('\n')];
  }

  /** So a line of plain text and a reference renders to the text and the value. */
  lemma LineRenders(pre: string, name: string, entries: seq<Entry>, i: nat)
    requires '$' !in pre && GoodName(name)
    requires i < |entries| && PrefixIgnoringCase(name, entries[i].name)
    requires forall j | 0 <= j < i :: !PrefixIgnoringCase(name, entries[j].name)
    ensures Meaning(pre + ("${" + name + ("}" + "\n")), entries) == Some(pre + entries[i].value)
  {
    TokensOfLine(pre, name);
    var front := Chars(pre) + [Ref(name)];
    assert Trim(front + [Ch('\n')]) == front;
    EmitConcat(Chars(pre), [Ref(name)], entries);
    EmitChars(pre, entries);
    ReferenceRenders(name, entries, i);
  }
}
