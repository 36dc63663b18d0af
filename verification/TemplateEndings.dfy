/** When a template renders completely: f1g_template_parse drops the last byte of a literal that ends
    the text (lines 224 to 234 of f1g_template.c), so all depends on how the text ends. */
module TemplateEndings {
  import opened Common
  import opened DataSets
  import opened Templates

  // ---------------------------------------------------------------- in terms of tokens

  /** The rendering is complete exactly when the last token is a reference. */
  lemma CompleteByTokens(text: string, toks: seq<Tok>, entries: seq<Entry>)
    requires text != "" && Tokens(text) == Some(toks)
    ensures toks != []
    ensures Meaning(text, entries) == Some(Emit(toks, entries)) <==> toks[|toks| - 1].Ref?
  {
    TextHasTokens(text);
    var last := toks[|toks| - 1];
    if last.Ch? {
      assert |Emit(toks, entries)| == |Emit(Trim(toks), entries)| + 1;
    }
  }

  lemma TextHasTokens(text: string)
    requires text != "" && Tokens(text).Some?
    ensures Tokens(text).value != []
  {
  }

  // ---------------------------------------------------------------- in terms of the text

  /** How many flags stand at the end. */
  function FlagRun(t: string): (k: nat)
    ensures k <= |t|
  {
    if t == "" || t[|t| - 1] != VAR_FLAG then 0 else 1 + FlagRun(t[..|t| - 1])
  }

  lemma {:induction false} FlagRunConcat(a: string, b: string)
    ensures FlagRun(a + b) == if FlagRun(b) == |b| then |b| + FlagRun(a) else FlagRun(b)
  {
    if b == "" {
      assert a + b == a;
    } else {
      assert (a + b)[..|a + b| - 1] == a + b[..|b| - 1];
      FlagRunConcat(a, b[..|b| - 1]);
    }
  }

  lemma {:induction false} RunStopsAtOther(b: string)
    requires b != "" && b[0] != VAR_FLAG
    ensures FlagRun(b) < |b|
  {
    if |b| > 1 {
      RunStopsAtOther(b[..|b| - 1]);
    }
  }

  /** The text ends in a name in braces; the brace at `k` opens it. */
  predicate NameInBracesAt(t: string, k: nat) {
    && k + 2 < |t| && t[k] == SPLIT_BEG && t[|t| - 1] == SPLIT_END
    && forall i | k < i < |t| - 1 :: NameChar(t[i])
  }

  /** The text ends in a name in braces behind an odd number of flags: pairs of flags are escapes, and
      the one left over makes it a reference. */
  ghost predicate EndsInReference(t: string) {
    exists k: nat :: NameInBracesAt(t, k) && FlagRun(t[..k]) % 2 == 1
  }

  lemma ParityShifts(t: string, m: nat, k: nat)
    requires m < k <= |t| && (FlagRun(t[..m]) % 2 == 0 || t[m] != VAR_FLAG)
    ensures FlagRun(t[..k]) % 2 == FlagRun(t[m..][..k - m]) % 2
  {
    var a, b := t[..m], t[m..][..k - m];
    assert t[..k] == a + b;
    FlagRunConcat(a, b);
    if t[m] != VAR_FLAG {
      RunStopsAtOther(b);
    }
  }

  lemma BracesShift(t: string, m: nat, k: nat)
    requires m <= k && m <= |t|
    ensures NameInBracesAt(t, k) <==> NameInBracesAt(t[m..], k - m)
  {
    var rest := t[m..];
    if NameInBracesAt(rest, k - m) {
      assert forall i | k < i < |t| - 1 :: t[i] == rest[i - m];
    }
  }

  /** The first `m` bytes do not matter for how the text ends, if they are a unit of their own. */
  lemma EndingShifts(t: string, m: nat)
    requires m < |t| && (FlagRun(t[..m]) % 2 == 0 || t[m] != VAR_FLAG)
    requires forall k: nat | k <= m && NameInBracesAt(t, k) :: FlagRun(t[..k]) % 2 == 0
    ensures EndsInReference(t) <==> EndsInReference(t[m..])
  {
    if EndsInReference(t) {
      var k: nat :| NameInBracesAt(t, k) && FlagRun(t[..k]) % 2 == 1;
      BracesShift(t, m, k);
      ParityShifts(t, m, k);
    }
    if EndsInReference(t[m..]) {
      var k: nat :| NameInBracesAt(t[m..], k) && FlagRun(t[m..][..k]) % 2 == 1;
      assert t[m..][..0] == "";
      BracesShift(t, m, k + m);
      ParityShifts(t, m, k + m);
    }
  }

  /** The last token of a text with a meaning is a reference. */
  predicate LastIsReference(toks: Option<seq<Tok>>) {
    toks.Some? && toks.value != [] && toks.value[|toks.value| - 1].Ref?
  }

  lemma LastOfPrepend(tok: Tok, rest: Option<seq<Tok>>)
    requires rest.Some?
    ensures LastIsReference(Prepend([tok], rest)) <==> if rest.value == [] then tok.Ref? else LastIsReference(rest)
  {
  }

  /** A text with a meaning has a reference as its last token exactly when it ends in one. */
  lemma {:induction false} LastTokenIsReference(t: string)
    requires t != "" && Tokens(t).Some?
    ensures LastIsReference(Tokens(t)) <==> EndsInReference(t)
    decreases |t|
  {
    if t[0] == VAR_FLAG && |t| > 1 && t[1] == VAR_FLAG {
      LastAfterEscape(t);
      LastGoesOn(t, Ch(VAR_FLAG), 2);
    } else if t[0] == VAR_FLAG && |t| > 1 && t[1] == SPLIT_BEG {
      var n := NameLength(t[2..]);
      if 2 + n == |t| {
        UnclosedEnds(t);
      } else {
        LastAfterReference(t, n);
        LastGoesOn(t, Ref(t[2..2 + n]), 3 + n);
      }
    } else {
      LastAfterChar(t);
      LastGoesOn(t, Ch(t[0]), 1);
    }
  }

  /** Behind its first token of `m` bytes a text goes on as its rest does. */
  lemma {:induction false} LastGoesOn(t: string, tok: Tok, m: nat)
    requires 1 <= m <= |t| && Tokens(t).Some? && Tokens(t) == Prepend([tok], Tokens(t[m..]))
    requires if m == |t| then EndsInReference(t) <==> tok.Ref? else EndsInReference(t) <==> EndsInReference(t[m..])
    ensures LastIsReference(Tokens(t)) <==> EndsInReference(t)
    decreases |t|, 0
  {
    var rest := t[m..];
    LastOfPrepend(tok, Tokens(rest));
    if m < |t| {
      TextHasTokens(rest);
      LastTokenIsReference(rest);
    }
  }

  lemma UnclosedEnds(t: string)
    requires |t| > 1 && t[0] == VAR_FLAG && t[1] == SPLIT_BEG && 2 + NameLength(t[2..]) == |t|
    ensures Tokens(t) == Some(Chars(t)) && !EndsInReference(t)
  {
    assert t[|t| - 1] == if |t| == 2 then SPLIT_BEG else t[2..][|t| - 3];
    assert t[|t| - 1] != SPLIT_END;
  }

  lemma LastAfterEscape(t: string)
    requires |t| > 1 && t[0] == VAR_FLAG && t[1] == VAR_FLAG
    ensures if |t| == 2 then !EndsInReference(t) else EndsInReference(t) <==> EndsInReference(t[2..])
  {
    assert t[..2][..1] == t[..1] && t[..1][..0] == "";
    assert FlagRun(t[..2]) == 2;
    if |t| > 2 {
      EndingShifts(t, 2);
    }
  }

  lemma LastAfterChar(t: string)
    requires t != "" && !(t[0] == VAR_FLAG && |t| > 1 && (t[1] == VAR_FLAG || t[1] == SPLIT_BEG))
    ensures if |t| == 1 then !EndsInReference(t) else EndsInReference(t) <==> EndsInReference(t[1..])
  {
    assert t[..0] == "";
    if |t| > 1 {
      assert t[..1][..0] == "";
      EndingShifts(t, 1);
    }
  }

  lemma LastAfterReference(t: string, n: nat)
    requires 3 + n <= |t| && n >= 1 && t[0] == VAR_FLAG && t[1] == SPLIT_BEG && t[2 + n] == SPLIT_END
    requires forall i | 2 <= i < 2 + n :: NameChar(t[i])
    ensures if |t| == 3 + n then EndsInReference(t) else EndsInReference(t) <==> EndsInReference(t[3 + n..])
  {
    assert t[..1][..0] == "" && FlagRun(t[..1]) == 1;
    if |t| == 3 + n {
      assert NameInBracesAt(t, 1);
    } else {
      assert FlagRun(t[..3 + n]) == 0;
      assert !NameChar(SPLIT_END) && !NameChar(SPLIT_BEG);
      forall k: nat | k <= 3 + n && NameInBracesAt(t, k)
        ensures FlagRun(t[..k]) % 2 == 0
      {
        assert k == 3 + n;
      }
      EndingShifts(t, 3 + n);
    }
  }

  /** The main result: a text with a meaning renders to all of its tokens exactly when it ends in a
      closed reference that is not escaped; any other text loses its last byte. */
  lemma CompleteExactly(text: string, entries: seq<Entry>)
    requires text != "" && Tokens(text).Some?
    ensures var all := Emit(Tokens(text).value, entries);
            && (Meaning(text, entries) == Some(all) <==> EndsInReference(text))
            && (!EndsInReference(text) ==> all != "" && Meaning(text, entries) == Some(all[..|all| - 1]))
  {
    var toks := Tokens(text).value;
    CompleteByTokens(text, toks, entries);
    LastTokenIsReference(text);
    assert LastIsReference(Tokens(text)) <==> toks[|toks| - 1].Ref?;
    if toks[|toks| - 1].Ch? {
      var all, part := Emit(toks, entries), Emit(toks[..|toks| - 1], entries);
      assert all == part + EmitOne(toks[|toks| - 1], entries);
      assert all[..|all| - 1] == part;
    }
  }

  /** Concretely: the one letter of the text "a" is lost. */
  lemma LetterIsLost(entries: seq<Entry>)
    ensures Tokens("a") == Some([Ch('a')]) && Emit([Ch('a')], entries) == "a" && Meaning("a", entries) == Some("")
  {
    assert Tokens("a"[1..]) == Some([]);
    assert [Ch('a')] + [] == [Ch('a')];
    assert [Ch('a')][..0] == [];
  }
}
