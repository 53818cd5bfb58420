/**
 * The character-level text normalisation of utils/text_cleaners.py:
 * lowercasing, the per-language symbol table, removal of auxiliary
 * symbols, whitespace collapsing, the abbreviation pass and the English
 * pipeline that chains them. Strings are sequences of Unicode scalar
 * values: Dafny's `char` excludes the lone surrogates a Python `str` can hold.
 */
module TextCleaners {
  import opened Outcomes

  // ---------------------------------------------------------------------------
  // Character classes
  // ---------------------------------------------------------------------------

  /**
   * Python's whitespace, as matched by `\s` in a `str` pattern and removed by
   * `str.strip()`: the ASCII separators 0x09-0x0D and 0x1C-0x20, and the
   * Unicode spaces and line separators.
   */
  predicate IsSpace(c: char)
  {
    c in SpaceChars
  }

  const SpaceChars: set<char> := {
    '\t', '\n', '\U{0B}', '\U{0C}', '\r', '\U{1C}', '\U{1D}', '\U{1E}', '\U{1F}', ' ',
    '\U{85}', '\U{A0}', '\U{1680}',
    '\U{2000}', '\U{2001}', '\U{2002}', '\U{2003}', '\U{2004}', '\U{2005}', '\U{2006}',
    '\U{2007}', '\U{2008}', '\U{2009}', '\U{200A}',
    '\U{2028}', '\U{2029}', '\U{202F}', '\U{205F}', '\U{3000}'
  }

  /** The characters removed by remove_aux_symbols. */
  const AuxSymbols: string := "<>()[]\""

  /** The regular-expression character classes the cleaners use. */
  datatype CharClass =
    | Whitespace     // `\s`
    | NonWhitespace  // `\S`
    | AuxSymbol      // `[\<\>\(\)\[\]\"]`

  predicate Matches(cls: CharClass, c: char)
  {
    match cls
    case Whitespace => IsSpace(c)
    case NonWhitespace => !IsSpace(c)
    case AuxSymbol => c in AuxSymbols
  }

  // ---------------------------------------------------------------------------
  // Regular-expression substitution of a character run, `re.sub(C + "+", rep, s)`
  // ---------------------------------------------------------------------------

  /** The length of the longest prefix of `s` whose characters are all in `cls`. */
  function RunLength(s: string, cls: CharClass): (n: nat)
    ensures n <= |s|
    ensures forall i :: 0 <= i < n ==> Matches(cls, s[i])
    ensures n < |s| ==> !Matches(cls, s[n])
  {
    if s == [] || !Matches(cls, s[0]) then 0 else 1 + RunLength(s[1..], cls)
  }

  /**
   * `re.sub` with the pattern `C+`: scanning from the left, every maximal run
   * of characters of `cls` is replaced by `rep`; every other character is
   * copied.
   */
  function SubRuns(s: string, cls: CharClass, rep: string): (t: string)
    decreases |s|
  {
    if s == [] then []
    else if Matches(cls, s[0]) then rep + SubRuns(s[RunLength(s, cls)..], cls, rep)
    else [s[0]] + SubRuns(s[1..], cls, rep)
  }

  /** The substitution adds no character but those of `rep`, and keeps every character outside `cls`. */
  lemma {:induction false} SubRunsChars(s: string, cls: CharClass, rep: string)
    ensures forall c :: c in SubRuns(s, cls, rep) ==> c in s || c in rep
    ensures forall c :: c in s && !Matches(cls, c) ==> c in SubRuns(s, cls, rep)
    decreases |s|
  {
    if s != [] {
      var n := if Matches(cls, s[0]) then RunLength(s, cls) else 1;
      SubRunsChars(s[n..], cls, rep);
      assert s == s[..n] + s[n..];
      forall c | c in s && !Matches(cls, c)
        ensures c in SubRuns(s, cls, rep)
      {
        if c !in s[n..] {
          assert c in s[..n];
          var i :| 0 <= i < n && s[i] == c;
        }
      }
    }
  }

  /** A prefix with no character of `cls` is copied as it is. */
  lemma {:induction false} SubRunsCopiesPlainPrefix(w: string, r: string, cls: CharClass, rep: string)
    requires forall i :: 0 <= i < |w| ==> !Matches(cls, w[i])
    ensures SubRuns(w + r, cls, rep) == w + SubRuns(r, cls, rep)
    decreases |w|
  {
    if w != [] {
      assert (w + r)[0] == w[0];
      assert (w + r)[1..] == w[1..] + r;
      SubRunsCopiesPlainPrefix(w[1..], r, cls, rep);
    } else {
      assert w + r == r;
    }
  }

  // ---------------------------------------------------------------------------
  // Deleting the characters of a class, one by one
  // ---------------------------------------------------------------------------

  /** `s` without the characters of `cls`, the others kept in order. */
  function Drop(s: string, cls: CharClass): (t: string)
    ensures |t| <= |s|
  {
    if s == [] then []
    else if Matches(cls, s[0]) then Drop(s[1..], cls)
    else [s[0]] + Drop(s[1..], cls)
  }

  /** Exactly the characters outside `cls` remain. */
  lemma {:induction false} DropChars(s: string, cls: CharClass)
    ensures forall c :: c in Drop(s, cls) <==> c in s && !Matches(cls, c)
    decreases |s|
  {
    if s != [] {
      DropChars(s[1..], cls);
      assert s == [s[0]] + s[1..];
    }
  }

  /** A string with nothing of `cls` is left as it is. */
  lemma {:induction false} DropNothing(s: string, cls: CharClass)
    requires forall i :: 0 <= i < |s| ==> !Matches(cls, s[i])
    ensures Drop(s, cls) == s
    decreases |s|
  {
    if s != [] {
      DropNothing(s[1..], cls);
    }
  }

  /** Deletion works piece by piece, so it keeps the order of what remains. */
  lemma {:induction false} DropConcat(a: string, b: string, cls: CharClass)
    ensures Drop(a + b, cls) == Drop(a, cls) + Drop(b, cls)
    decreases |a|
  {
    if a != [] {
      assert (a + b)[0] == a[0];
      assert (a + b)[1..] == a[1..] + b;
      DropConcat(a[1..], b, cls);
    } else {
      assert a + b == b;
    }
  }

  /** A string made only of characters of `cls` is deleted entirely. */
  lemma {:induction false} DropAll(s: string, cls: CharClass)
    requires forall i :: 0 <= i < |s| ==> Matches(cls, s[i])
    ensures Drop(s, cls) == []
    decreases |s|
  {
    if s != [] {
      DropAll(s[1..], cls);
    }
  }

  /** Replacing every run by nothing deletes exactly the characters of the class. */
  lemma {:induction false} SubRunsWithNothingDrops(s: string, cls: CharClass)
    ensures SubRuns(s, cls, "") == Drop(s, cls)
    decreases |s|
  {
    if s != [] {
      if Matches(cls, s[0]) {
        var n := RunLength(s, cls);
        assert s == s[..n] + s[n..];
        DropConcat(s[..n], s[n..], cls);
        DropAll(s[..n], cls);
        SubRunsWithNothingDrops(s[n..], cls);
      } else {
        SubRunsWithNothingDrops(s[1..], cls);
      }
    }
  }

  // ---------------------------------------------------------------------------
  // lowercase
  // ---------------------------------------------------------------------------

  predicate IsAsciiUpper(c: char)
  {
    'A' <= c <= 'Z'
  }

  /** `str.lower()` restricted to ASCII: an upper-case letter becomes its lower-case letter. */
  function Lowercase(s: string): (t: string)
    ensures |t| == |s|
    ensures forall i :: 0 <= i < |t| ==> !IsAsciiUpper(t[i])
    ensures forall i :: 0 <= i < |s| && IsAsciiUpper(s[i]) ==>
              'a' <= t[i] <= 'z' && t[i] as int - s[i] as int == 'a' as int - 'A' as int
    ensures forall i :: 0 <= i < |s| && !IsAsciiUpper(s[i]) ==> t[i] == s[i]
  {
    seq(|s|, i requires 0 <= i < |s| =>
      if IsAsciiUpper(s[i]) then (s[i] as int + ('a' as int - 'A' as int)) as char else s[i])
  }

  /** Lowercasing twice is lowercasing once. */
  lemma LowercaseIdempotent(s: string)
    ensures Lowercase(Lowercase(s)) == Lowercase(s)
  {
  }

  // ---------------------------------------------------------------------------
  // replace_symbols
  // ---------------------------------------------------------------------------

  /** `str.replace` with a one-character pattern: every `target` becomes `replacement`. */
  function ReplaceAll(s: string, target: char, replacement: string): (t: string)
    ensures target !in s ==> t == s
    ensures target in t ==> target in replacement
  {
    if s == [] then []
    else (if s[0] == target then replacement else [s[0]]) + ReplaceAll(s[1..], target, replacement)
  }

  /**
   * A character is in the result of `str.replace` exactly when it was in the
   * text and is not the target, or the target occurred and the character is
   * in the replacement.
   */
  lemma {:induction false} ReplaceAllMembers(s: string, target: char, replacement: string)
    ensures forall c :: c in ReplaceAll(s, target, replacement) <==> (c != target && c in s) || (target in s && c in replacement)
    decreases |s|
  {
    if s != [] {
      ReplaceAllMembers(s[1..], target, replacement);
      assert s == [s[0]] + s[1..];
    }
  }

  /** Concatenation regrouped, proved apart from the functions around it. */
  lemma Assoc(a: string, b: string, c: string)
    ensures a + (b + c) == a + b + c
  {
  }

  /** Replacement works piece by piece. */
  lemma {:induction false} ReplaceAllConcat(a: string, b: string, target: char, replacement: string)
    ensures ReplaceAll(a + b, target, replacement) == ReplaceAll(a, target, replacement) + ReplaceAll(b, target, replacement)
    decreases |a|
  {
    if a != [] {
      var head := if a[0] == target then replacement else [a[0]];
      assert (a + b)[0] == a[0];
      assert (a + b)[1..] == a[1..] + b;
      ReplaceAllConcat(a[1..], b, target, replacement);
      Assoc(head, ReplaceAll(a[1..], target, replacement), ReplaceAll(b, target, replacement));
    } else {
      assert a + b == b;
    }
  }

  /** The word replace_symbols puts in place of `&`: for en, fr, pt and ca only. */
  function Conjunction(lang: string): (w: Option<string>)
    ensures w.Some? <==> lang in {"en", "fr", "pt", "ca"}
    ensures w.Some? ==> |w.value| >= 3 && w.value[0] == ' ' && w.value[|w.value| - 1] == ' '
  {
    if lang == "en" then Some(" and ")
    else if lang == "fr" then Some(" et ")
    else if lang == "pt" then Some(" e ")
    else if lang == "ca" then Some(" i ")
    else None
  }

  /** The number of replacement stages of replace_symbols. */
  const SymbolStages: nat := 5

  /** The character stage `k` (1 to 5) of replace_symbols replaces. */
  function StageTarget(k: nat): (c: char)
    ensures c in Symbols
    ensures 1 <= k <= SymbolStages ==> c == Symbols[k - 1]
  {
    if k == 1 then ';' else if k == 2 then '-' else if k == 3 then ':' else if k == 4 then '&' else '\''
  }

  /**
   * What stage `k` puts in its target's place for language `lang`, or None
   * when the stage does not run for that language: `;` and `:` become `,`;
   * `-` becomes a space, or nothing for Catalan; `&` becomes the language's
   * conjunction; the apostrophe is deleted for Catalan only.
   */
  function StageReplacement(k: nat, lang: string): (r: Option<string>)
    ensures r.Some? <==> 1 <= k <= 3 || (k == 4 && Conjunction(lang).Some?) || (k == 5 && lang == "ca")
    ensures r.Some? ==> forall c :: c in r.value ==> c in BroughtIn && c !in Symbols
  {
    if k == 1 || k == 3 then Some(",")
    else if k == 2 then (if lang != "ca" then Some(" ") else Some(""))
    else if k == 4 then Conjunction(lang)
    else if k == 5 && lang == "ca" then Some("")
    else None
  }

  /** The text after the first `k` stages of replace_symbols. */
  function Stage(text: string, lang: string, k: nat): (t: string)
    requires k <= SymbolStages
  {
    if k == 0 then text
    else
      var before := Stage(text, lang, k - 1);
      match StageReplacement(k, lang)
      case None => before
      case Some(r) => ReplaceAll(before, StageTarget(k), r)
  }

  /**
   * replace_symbols: the five stages, in order. No `;`, `:` or `-` is left in
   * any language; every character outside the table is kept; the only
   * characters brought in are those of the replacements.
   */
  function ReplaceSymbols(text: string, lang: string): (r: string)
    ensures ';' !in r && ':' !in r && '-' !in r
    ensures forall c :: c in text && c !in Symbols ==> c in r
    ensures forall c :: c in r ==> c in text || c in BroughtIn
  {
    StageSymbol(text, lang, SymbolStages, ';');
    StageSymbol(text, lang, SymbolStages, ':');
    StageSymbol(text, lang, SymbolStages, '-');
    RemovedByAllStages(';', lang);
    RemovedByAllStages(':', lang);
    RemovedByAllStages('-', lang);
    StageKeeps(text, lang, SymbolStages);
    StageBringsIn(text, lang, SymbolStages);
    Stage(text, lang, SymbolStages)
  }

  /** The characters some stage replaces, in the order of the stages. */
  const Symbols: string := ";-:&'"

  /** The characters of the replacements: the comma, the space and the letters of the conjunctions. */
  const BroughtIn: string := ", andeti"

  /** Whether one of the first `k` stages removes `c` for language `lang`. */
  predicate RemovedBy(c: char, lang: string, k: nat)
  {
    k > 0 && (RemovedBy(c, lang, k - 1) || (StageTarget(k) == c && StageReplacement(k, lang).Some?))
  }

  /** Which symbols the five stages remove, by language. */
  lemma RemovedByAllStages(c: char, lang: string)
    ensures RemovedBy(c, lang, SymbolStages) <==>
              c == ';' || c == '-' || c == ':' || (c == '&' && Conjunction(lang).Some?) || (c == '\'' && lang == "ca")
  {
    assert RemovedBy(c, lang, 1) <==> c == ';';
    assert RemovedBy(c, lang, 2) <==> c == ';' || c == '-';
    assert RemovedBy(c, lang, 3) <==> RemovedBy(c, lang, 2) || c == ':';
    assert RemovedBy(c, lang, 4) <==> RemovedBy(c, lang, 2) || c == ':' || (c == '&' && Conjunction(lang).Some?);
  }

  /**
   * A character some stage replaces is in the text after `k` stages exactly
   * when it was in the input and none of those stages removed it.
   */
  lemma {:induction false} StageSymbol(text: string, lang: string, k: nat, c: char)
    requires k <= SymbolStages && c in Symbols
    ensures c in Stage(text, lang, k) <==> c in text && !RemovedBy(c, lang, k)
  {
    if k > 0 {
      StageSymbol(text, lang, k - 1, c);
      match StageReplacement(k, lang)
      case None =>
      case Some(r) =>
        assert c !in r;
        ReplaceAllMembers(Stage(text, lang, k - 1), StageTarget(k), r);
    }
  }

  /** Any other character of the input survives every stage. */
  lemma {:induction false} StageKeeps(text: string, lang: string, k: nat)
    requires k <= SymbolStages
    ensures forall c :: c in text && c !in Symbols ==> c in Stage(text, lang, k)
  {
    if k > 0 {
      StageKeeps(text, lang, k - 1);
      match StageReplacement(k, lang)
      case None =>
      case Some(r) =>
        StageStep(text, lang, k);
        ReplaceAllMembers(Stage(text, lang, k - 1), StageTarget(k), r);
    }
  }

  /** The only characters the stages bring in are those of the replacements. */
  lemma {:induction false} StageBringsIn(text: string, lang: string, k: nat)
    requires k <= SymbolStages
    ensures forall c :: c in Stage(text, lang, k) ==> c in text || c in BroughtIn
  {
    if k > 0 {
      StageBringsIn(text, lang, k - 1);
      match StageReplacement(k, lang)
      case None =>
      case Some(r) =>
        StageStep(text, lang, k);
        ReplaceAllMembers(Stage(text, lang, k - 1), StageTarget(k), r);
    }
  }

  /** `&` is left exactly when the language is not en, fr, pt or ca and the input holds one. */
  lemma ReplaceSymbolsAmpersand(text: string, lang: string)
    ensures '&' in ReplaceSymbols(text, lang) <==> lang !in {"en", "fr", "pt", "ca"} && '&' in text
  {
    StageSymbol(text, lang, SymbolStages, '&');
    RemovedByAllStages('&', lang);
  }

  /** An apostrophe is left exactly when the language is not Catalan and the input holds one. */
  lemma ReplaceSymbolsApostrophe(text: string, lang: string)
    ensures '\'' in ReplaceSymbols(text, lang) <==> lang != "ca" && '\'' in text
  {
    StageSymbol(text, lang, SymbolStages, '\'');
    RemovedByAllStages('\'', lang);
  }

  /** On text without `;`, `:`, `-` or apostrophes, replace_symbols is the `&` table alone. */
  lemma ReplaceSymbolsIsConjunctionTable(text: string, lang: string)
    requires ';' !in text && ':' !in text && '-' !in text && '\'' !in text
    ensures Conjunction(lang).Some? ==> ReplaceSymbols(text, lang) == ReplaceAll(text, '&', Conjunction(lang).value)
    ensures Conjunction(lang).None? ==> ReplaceSymbols(text, lang) == text
  {
    assert Stage(text, lang, 3) == text by {
      assert Stage(text, lang, 1) == text;
      assert Stage(text, lang, 2) == text;
    }
    var after := Stage(text, lang, 4);
    assert '\'' !in after by {
      StageSymbol(text, lang, 4, '\'');
    }
  }

  /** The one occurrence of `target` between two texts without it is replaced. */
  lemma ReplaceAllSingle(p: string, q: string, target: char, replacement: string)
    requires target !in p && target !in q
    ensures ReplaceAll(p + [target] + q, target, replacement) == p + replacement + q
  {
    ReplaceAllConcat(p + [target], q, target, replacement);
    ReplaceAllConcat(p, [target], target, replacement);
    assert ReplaceAll([target], target, replacement) == replacement + ReplaceAll([], target, replacement);
    assert replacement + [] == replacement;
  }

  /** ReplaceAllSingle, for a text known to have that shape. */
  lemma ReplaceAllOnce(s: string, p: string, q: string, target: char, replacement: string)
    requires s == p + [target] + q && target !in p && target !in q
    ensures ReplaceAll(s, target, replacement) == p + replacement + q
  {
    ReplaceAllSingle(p, q, target, replacement);
  }

  /** An empty middle part, proved apart from the functions around it. */
  lemma EmptyMiddle(p: string, q: string)
    ensures p + "" + q == p + q
  {
  }

  /** A stage that runs replaces its target in the text the earlier stages left. */
  lemma StageStep(text: string, lang: string, k: nat)
    requires 1 <= k <= SymbolStages && StageReplacement(k, lang).Some?
    ensures Stage(text, lang, k) == ReplaceAll(Stage(text, lang, k - 1), StageTarget(k), StageReplacement(k, lang).value)
  {
  }

  /** A stage whose target is not in the text so far leaves it unchanged. */
  lemma StageWithoutTarget(text: string, lang: string, k: nat)
    requires 1 <= k <= SymbolStages && StageTarget(k) !in Stage(text, lang, k - 1)
    ensures Stage(text, lang, k) == Stage(text, lang, k - 1)
  {
  }

  /** A stage that runs, applied to a text holding its target once. */
  lemma StageReplacesOnce(text: string, lang: string, k: nat, p: string, q: string)
    requires 1 <= k <= SymbolStages && StageReplacement(k, lang).Some?
    requires Stage(text, lang, k - 1) == p + [StageTarget(k)] + q
    requires StageTarget(k) !in p && StageTarget(k) !in q
    ensures Stage(text, lang, k) == p + StageReplacement(k, lang).value + q
  {
    StageStep(text, lang, k);
    ReplaceAllOnce(Stage(text, lang, k - 1), p, q, StageTarget(k), StageReplacement(k, lang).value);
  }

  /** A stage that deletes its target, applied to a text holding it once. */
  lemma StageDeletesOnce(text: string, lang: string, k: nat, p: string, q: string)
    requires 1 <= k <= SymbolStages && StageReplacement(k, lang) == Some("")
    requires Stage(text, lang, k - 1) == p + [StageTarget(k)] + q
    requires StageTarget(k) !in p && StageTarget(k) !in q
    ensures Stage(text, lang, k) == p + q
  {
    StageReplacesOnce(text, lang, k, p, q);
    EmptyMiddle(p, q);
  }

  /** A text holding none of the characters some stage replaces. */
  predicate Plain(s: string)
  {
    ';' !in s && '-' !in s && ':' !in s && '&' !in s && '\'' !in s
  }

  /**
   * What replace_symbols puts in place of the target of stage `k`: its
   * replacement, or the target itself when the stage does not run.
   */
  function Entry(k: nat, lang: string): string
  {
    match StageReplacement(k, lang)
    case Some(r) => r
    case None => [StageTarget(k)]
  }

  /** Stages before `k` leave a single target of stage `k` between plain texts alone. */
  lemma {:induction false} StagesBeforeOne(p: string, q: string, k: nat, lang: string, j: nat)
    requires 1 <= k <= SymbolStages && j < k && Plain(p) && Plain(q)
    ensures Stage(p + [StageTarget(k)] + q, lang, j) == p + [StageTarget(k)] + q
    decreases j
  {
    if j > 0 {
      var text := p + [StageTarget(k)] + q;
      StagesBeforeOne(p, q, k, lang, j - 1);
      assert StageTarget(j) !in text;
      StageWithoutTarget(text, lang, j);
    }
  }

  /** Stage `k` turns the single target into its entry, and the stages after it keep that. */
  lemma {:induction false} StagesFromOne(p: string, q: string, k: nat, lang: string, j: nat)
    requires 1 <= k <= j <= SymbolStages && Plain(p) && Plain(q)
    ensures Stage(p + [StageTarget(k)] + q, lang, j) == p + Entry(k, lang) + q
    decreases j
  {
    var text := p + [StageTarget(k)] + q;
    if j == k {
      StagesBeforeOne(p, q, k, lang, k - 1);
      match StageReplacement(k, lang)
      case Some(r) =>
        StageReplacesOnce(text, lang, k, p, q);
      case None =>
        StageSkipped(text, lang, k);
    } else {
      StagesFromOne(p, q, k, lang, j - 1);
      if StageReplacement(k, lang).Some? {
        assert StageTarget(j) !in StageReplacement(k, lang).value;
      }
      assert StageTarget(j) !in p + Entry(k, lang) + q;
      StageWithoutTarget(text, lang, j);
    }
  }

  /** A stage that does not run for the language leaves the text as it was. */
  lemma StageSkipped(text: string, lang: string, k: nat)
    requires 1 <= k <= SymbolStages && StageReplacement(k, lang).None?
    ensures Stage(text, lang, k) == Stage(text, lang, k - 1)
  {
  }

  /**
   * The table of replace_symbols: one symbol between two texts without
   * symbols becomes its entry for the language, and nothing else changes.
   */
  lemma ReplaceSymbolsOne(p: string, q: string, k: nat, lang: string)
    requires 1 <= k <= SymbolStages && Plain(p) && Plain(q)
    ensures ReplaceSymbols(p + [StageTarget(k)] + q, lang) == p + Entry(k, lang) + q
  {
    StagesFromOne(p, q, k, lang, SymbolStages);
  }

  /** Every stage works on the two halves of a text independently. */
  lemma {:induction false} StageConcat(a: string, b: string, lang: string, k: nat)
    requires k <= SymbolStages
    ensures Stage(a + b, lang, k) == Stage(a, lang, k) + Stage(b, lang, k)
  {
    if k > 0 {
      StageConcat(a, b, lang, k - 1);
      if StageReplacement(k, lang).Some? {
        StageStep(a + b, lang, k);
        StageStep(a, lang, k);
        StageStep(b, lang, k);
        ReplaceAllConcat(Stage(a, lang, k - 1), Stage(b, lang, k - 1), StageTarget(k), StageReplacement(k, lang).value);
      } else {
        StageSkipped(a + b, lang, k);
        StageSkipped(a, lang, k);
        StageSkipped(b, lang, k);
      }
    }
  }

  /** replace_symbols of a concatenation is the concatenation of the two results. */
  lemma ReplaceSymbolsConcat(a: string, b: string, lang: string)
    ensures ReplaceSymbols(a + b, lang) == ReplaceSymbols(a, lang) + ReplaceSymbols(b, lang)
  {
    StageConcat(a, b, lang, SymbolStages);
  }

  /** No stage changes a text without symbols. */
  lemma {:induction false} StagesPlain(text: string, lang: string, k: nat)
    requires k <= SymbolStages && Plain(text)
    ensures Stage(text, lang, k) == text
  {
    if k > 0 {
      StagesPlain(text, lang, k - 1);
      var t := StageTarget(k);
      assert t == ';' || t == '-' || t == ':' || t == '&' || t == '\'';
      assert t !in text;
      StageWithoutTarget(text, lang, k);
    }
  }

  /**
   * The table of replace_symbols read character by character: `;` and `:`
   * become a comma, `-` a space (nothing for ca), `&` the language's
   * conjunction, `'` nothing for ca; every other character stays.
   */
  function SymbolEntry(c: char, lang: string): string
  {
    if c == ';' || c == ':' then ","
    else if c == '-' then (if lang != "ca" then " " else "")
    else if c == '&' && Conjunction(lang).Some? then Conjunction(lang).value
    else if c == '\'' && lang == "ca" then ""
    else [c]
  }

  /** Every character of `text` replaced by its table entry. */
  function ReplaceEach(text: string, lang: string): string
  {
    if text == [] then [] else SymbolEntry(text[0], lang) + ReplaceEach(text[1..], lang)
  }

  /** replace_symbols on a single character gives its table entry. */
  lemma ReplaceSymbolsChar(c: char, lang: string)
    ensures ReplaceSymbols([c], lang) == SymbolEntry(c, lang)
  {
    if c in Symbols {
      assert Symbols == [';', '-', ':', '&', '\''];
      var k := if c == ';' then 1 else if c == '-' then 2 else if c == ':' then 3 else if c == '&' then 4 else 5;
      ReplaceSymbolsOne("", "", k, lang);
      assert "" + [c] + "" == [c];
      assert "" + Entry(k, lang) + "" == Entry(k, lang);
    } else {
      StagesPlain([c], lang, SymbolStages);
    }
  }

  /** replace_symbols is the table applied to each character of the text in turn. */
  lemma {:induction false} ReplaceSymbolsEach(text: string, lang: string)
    ensures ReplaceSymbols(text, lang) == ReplaceEach(text, lang)
    decreases |text|
  {
    if text == [] {
      StagesPlain(text, lang, SymbolStages);
    } else {
      assert text == [text[0]] + text[1..];
      ReplaceSymbolsConcat([text[0]], text[1..], lang);
      ReplaceSymbolsChar(text[0], lang);
      ReplaceSymbolsEach(text[1..], lang);
    }
  }

  /** In English a semicolon becomes a comma and a hyphen a space, wherever they occur. */
  lemma ReplaceSymbolsSeparatorsExample(text: string, lang: string)
    requires text == "a;b-c" && lang == "en"
    ensures ReplaceSymbols(text, lang) == "a,b c"
  {
    ReplaceSymbolsEach(text, lang);
    SeparatorsEach(text, lang);
  }

  /** The character-by-character table on the separators example. */
  lemma SeparatorsEach(text: string, lang: string)
    requires text == "a;b-c" && lang == "en"
    ensures ReplaceEach(text, lang) == "a,b c"
  {
    assert ReplaceEach(text[4..], lang) == "c";
    assert ReplaceEach(text[3..], lang) == " c";
    assert ReplaceEach(text[2..], lang) == "b c";
    assert ReplaceEach(text[1..], lang) == ",b c";
  }

  /** For Catalan, an apostrophe and a hyphen between plain words are deleted. */
  lemma ReplaceSymbolsCatalanJoins(a: string, b: string, c: string)
    requires Plain(a) && Plain(b) && Plain(c)
    ensures ReplaceSymbols(a + "'" + b + "-" + c, "ca") == a + b + c
  {
    CatalanStagesJoin(a, b, c);
  }

  /** The five stages for Catalan on a word, an apostrophe, a word, a hyphen and a word. */
  lemma CatalanStagesJoin(a: string, b: string, c: string)
    requires Plain(a) && Plain(b) && Plain(c)
    ensures Stage(a + "'" + b + "-" + c, "ca", SymbolStages) == a + b + c
  {
    CatalanHyphen(a, b, c);
    CatalanApostrophe(a + "'" + b + "-" + c, a, b, c);
  }

  /** Two texts without symbols make one without symbols. */
  lemma PlainConcat(p: string, q: string)
    requires Plain(p) && Plain(q)
    ensures Plain(p + q)
  {
  }

  /** The first two stages for Catalan delete the hyphen of a word, an apostrophe, a word, a hyphen and a word. */
  lemma CatalanHyphen(a: string, b: string, c: string)
    requires Plain(a) && Plain(b) && Plain(c)
    ensures Stage(a + "'" + b + "-" + c, "ca", 2) == a + ['\''] + (b + c)
  {
    var text := a + "'" + b + "-" + c;
    var p := a + "'" + b;
    assert text == p + ['-'] + c;
    StageWithoutTarget(text, "ca", 1);
    StageDeletesOnce(text, "ca", 2, p, c);
    assert p + c == a + ['\''] + (b + c);
  }

  /** The last three stages for Catalan delete the one apostrophe left. */
  lemma CatalanApostrophe(text: string, a: string, b: string, c: string)
    requires Plain(a) && Plain(b) && Plain(c) && Stage(text, "ca", 2) == a + ['\''] + (b + c)
    ensures Stage(text, "ca", SymbolStages) == a + b + c
  {
    PlainConcat(b, c);
    StageWithoutTarget(text, "ca", 3);
    StageWithoutTarget(text, "ca", 4);
    StageDeletesOnce(text, "ca", 5, a, b + c);
    assert a + (b + c) == a + b + c;
  }

  /** The docstring's Catalan phrase, around its apostrophe and its hyphen. */
  lemma CatalanExampleSpelling(a: string, b: string, c: string)
    requires a == "si l" && b == "avi cau, diguem" && c == "ho"
    ensures a + "'" + b + "-" + c == "si l'avi cau, diguem-ho"
    ensures a + b + c == "si lavi cau, diguemho"
  {
  }

  /** The three parts of the docstring's phrase hold no symbol. */
  lemma CatalanExampleParts(a: string, b: string, c: string)
    requires a == "si l" && b == "avi cau, diguem" && c == "ho"
    ensures ';' !in a && ':' !in a && '-' !in a && '&' !in a && '\'' !in a
    ensures ';' !in b && ':' !in b && '-' !in b && '&' !in b && '\'' !in b
    ensures ';' !in c && ':' !in c && '-' !in c && '&' !in c && '\'' !in c
  {
  }

  /** The docstring's example of replace_symbols on a Catalan phrase. */
  lemma ReplaceSymbolsCatalanExample(text: string)
    requires text == "si l'avi cau, diguem-ho"
    ensures ReplaceSymbols(text, "ca") == "si lavi cau, diguemho"
  {
    var a, b, c := "si l", "avi cau, diguem", "ho";
    CatalanExampleSpelling(a, b, c);
    CatalanExampleParts(a, b, c);
    ReplaceSymbolsCatalanJoins(a, b, c);
  }

  // ---------------------------------------------------------------------------
  // remove_aux_symbols
  // ---------------------------------------------------------------------------

  /**
   * remove_aux_symbols: every run of `< > ( ) [ ] "` is replaced by nothing,
   * which deletes exactly those characters one by one.
   */
  function RemoveAuxSymbols(text: string): (r: string)
    ensures r == Drop(text, AuxSymbol)
    ensures forall c :: c in r <==> c in text && c !in AuxSymbols
  {
    SubRunsWithNothingDrops(text, AuxSymbol);
    DropChars(text, AuxSymbol);
    SubRuns(text, AuxSymbol, "")
  }

  /** Removing the auxiliary symbols twice is removing them once. */
  lemma RemoveAuxSymbolsIdempotent(text: string)
    ensures RemoveAuxSymbols(RemoveAuxSymbols(text)) == RemoveAuxSymbols(text)
  {
    var r := RemoveAuxSymbols(text);
    assert forall i :: 0 <= i < |r| ==> !Matches(AuxSymbol, r[i]) by {
      forall i | 0 <= i < |r|
        ensures !Matches(AuxSymbol, r[i])
      {
        assert r[i] in r;
      }
    }
    DropNothing(r, AuxSymbol);
  }

  // ---------------------------------------------------------------------------
  // strip, split and join
  // ---------------------------------------------------------------------------

  /** `s` with its leading whitespace removed. */
  function StripStart(s: string): (t: string)
    ensures |t| <= |s| && t == s[|s| - |t|..]
    ensures forall i :: 0 <= i < |s| - |t| ==> IsSpace(s[i])
    ensures t != [] ==> !IsSpace(t[0])
  {
    s[RunLength(s, Whitespace)..]
  }

  /** `s` with its trailing whitespace removed. */
  function StripEnd(s: string): (t: string)
    ensures |t| <= |s| && t == s[..|t|]
    ensures forall i :: |t| <= i < |s| ==> IsSpace(s[i])
    ensures t != [] ==> !IsSpace(t[|t| - 1])
  {
    if s != [] && IsSpace(s[|s| - 1]) then StripEnd(s[..|s| - 1]) else s
  }

  /** No leading and no trailing whitespace. */
  predicate Trimmed(s: string)
  {
    s != [] ==> !IsSpace(s[0]) && !IsSpace(s[|s| - 1])
  }

  /** `str.strip()`: the longest trimmed middle part of `s`. */
  function Strip(s: string): (t: string)
    ensures Trimmed(t)
    ensures forall c :: c in t ==> c in s
    ensures Trimmed(s) ==> t == s
  {
    var u := StripStart(s);
    var t := StripEnd(u);
    assert t != [] ==> t[0] == u[0];
    SliceChars(u, 0, |t|);
    SliceChars(s, |s| - |u|, |s|);
    t
  }

  /** A slice holds no character its sequence does not. */
  lemma SliceChars(s: string, lo: nat, hi: nat)
    requires lo <= hi <= |s|
    ensures forall c :: c in s[lo..hi] ==> c in s
  {
    forall c | c in s[lo..hi]
      ensures c in s
    {
      var i :| 0 <= i < hi - lo && s[lo..hi][i] == c;
      assert s[lo + i] == c;
    }
  }

  /** Surrounding whitespace is exactly what strip removes. */
  lemma StripSurrounding(p: string, m: string, q: string)
    requires forall i :: 0 <= i < |p| ==> IsSpace(p[i])
    requires forall i :: 0 <= i < |q| ==> IsSpace(q[i])
    requires Trimmed(m)
    ensures Strip(p + m + q) == m
  {
    if m == [] {
      assert p + m + q == p + q;
      StripStartSpaces(p + q, []);
      assert p + q + [] == p + q;
    } else {
      assert p + m + q == p + (m + q);
      StripStartSpaces(p, m + q);
      StripEndSpaces(m, q);
    }
  }

  lemma StripStartSpaces(p: string, u: string)
    requires forall i :: 0 <= i < |p| ==> IsSpace(p[i])
    requires u == [] || !IsSpace(u[0])
    ensures StripStart(p + u) == u
  {
    var s := p + u;
    assert |p| < |s| ==> s[|p|] == u[0];
    RunLengthExact(s, Whitespace, |p|);
  }

  lemma {:induction false} StripEndSpaces(m: string, q: string)
    requires forall i :: 0 <= i < |q| ==> IsSpace(q[i])
    requires m != [] && !IsSpace(m[|m| - 1])
    ensures StripEnd(m + q) == m
    decreases |q|
  {
    if q != [] {
      assert (m + q)[..|m + q| - 1] == m + q[..|q| - 1];
      StripEndSpaces(m, q[..|q| - 1]);
    } else {
      assert m + q == m;
    }
  }

  /** A word of `str.split()`: a non-empty string without whitespace. */
  predicate IsWord(w: string)
  {
    |w| > 0 && forall i :: 0 <= i < |w| ==> !IsSpace(w[i])
  }

  /** `str.split()` with no separator: the maximal runs of non-whitespace, in order. */
  function Words(s: string): (ws: seq<string>)
    ensures forall k :: 0 <= k < |ws| ==> IsWord(ws[k])
    decreases |s|
  {
    if s == [] then []
    else if IsSpace(s[0]) then Words(s[1..])
    else
      var n := RunLength(s, NonWhitespace);
      [s[..n]] + Words(s[n..])
  }

  /** `" ".join(ws)`. */
  function Join(ws: seq<string>): (s: string)
  {
    if ws == [] then []
    else if |ws| == 1 then ws[0]
    else ws[0] + " " + Join(ws[1..])
  }

  /** Leading whitespace does not change the words. */
  lemma {:induction false} WordsSkipSpaces(s: string, k: nat)
    requires k <= |s| && forall i :: 0 <= i < k ==> IsSpace(s[i])
    ensures Words(s) == Words(s[k..])
    decreases k
  {
    if k > 0 {
      assert s[1..][k - 1..] == s[k..];
      WordsSkipSpaces(s[1..], k - 1);
    }
  }

  /** A string without words is all whitespace. */
  lemma {:induction false} NoWordsAllSpaces(s: string)
    requires Words(s) == []
    ensures forall i :: 0 <= i < |s| ==> IsSpace(s[i])
    decreases |s|
  {
    if s != [] {
      NoWordsAllSpaces(s[1..]);
      assert forall i :: 1 <= i < |s| ==> s[i] == s[1..][i - 1];
    }
  }

  /**
   * A string with no two adjacent whitespace characters, whose only
   * whitespace character is the space, and which is trimmed.
   */
  predicate Collapsed(s: string)
  {
    && Trimmed(s)
    && (forall i :: 0 <= i < |s| - 1 ==> !AdjacentSpaces(s, i))
    && (forall i :: 0 <= i < |s| && IsSpace(s[i]) ==> s[i] == ' ')
  }

  predicate AdjacentSpaces(s: string, i: nat)
    requires i + 1 < |s|
  {
    IsSpace(s[i]) && IsSpace(s[i + 1])
  }

  /** Words joined by single spaces form a collapsed string. */
  lemma {:induction false} JoinCollapsed(ws: seq<string>)
    requires forall k :: 0 <= k < |ws| ==> IsWord(ws[k])
    ensures Collapsed(Join(ws))
    ensures ws != [] ==> Join(ws) != []
    decreases |ws|
  {
    if |ws| == 1 {
      assert IsWord(ws[0]);
    } else if |ws| > 1 {
      var w, rest := ws[0], Join(ws[1..]);
      assert IsWord(w);
      JoinCollapsed(ws[1..]);
      var s := w + " " + rest;
      assert Join(ws) == s;
      forall i | 0 <= i < |s|
        ensures IsSpace(s[i]) ==> s[i] == ' '
        ensures i < |s| - 1 ==> !AdjacentSpaces(s, i)
      {
        if i < |w| {
          assert s[i] == w[i];
        } else if i > |w| {
          assert s[i] == rest[i - |w| - 1];
          if i < |s| - 1 {
            assert s[i + 1] == rest[i - |w|];
            assert !AdjacentSpaces(rest, i - |w| - 1);
          }
        } else {
          assert s[i + 1] == rest[0];
        }
      }
      assert s[|s| - 1] == rest[|rest| - 1];
    }
  }

  /** Splitting words joined by spaces gives the words back. */
  lemma {:induction false} WordsOfJoin(ws: seq<string>)
    requires forall k :: 0 <= k < |ws| ==> IsWord(ws[k])
    ensures Words(Join(ws)) == ws
    decreases |ws|
  {
    if ws != [] {
      var w := ws[0];
      assert IsWord(w);
      var rest := if |ws| == 1 then [] else " " + Join(ws[1..]);
      var s := w + rest;
      assert Join(ws) == s;
      assert s[..|w|] == w && s[|w|..] == rest;
      assert RunLength(s, NonWhitespace) == |w| by {
        RunLengthExact(s, NonWhitespace, |w|);
      }
      if |ws| > 1 {
        WordsOfJoin(ws[1..]);
        assert rest[1..] == Join(ws[1..]);
      }
    }
  }

  /** A run is as long as the prefix of `cls` characters that a character outside `cls` ends. */
  lemma {:induction false} RunLengthExact(s: string, cls: CharClass, n: nat)
    requires n <= |s| && (forall i :: 0 <= i < n ==> Matches(cls, s[i]))
    requires n < |s| ==> !Matches(cls, s[n])
    ensures RunLength(s, cls) == n
    decreases n
  {
    if n > 0 {
      RunLengthExact(s[1..], cls, n - 1);
    }
  }

  // ---------------------------------------------------------------------------
  // collapse_whitespace
  // ---------------------------------------------------------------------------

  /** `re.sub(r"\s+", " ", s)`: every run of whitespace replaced by one space. */
  function Squeeze(s: string): (t: string)
  {
    SubRuns(s, Whitespace, " ")
  }

  /** The space Squeeze leaves before the first word, if `s` starts with whitespace. */
  function Lead(s: string): string
  {
    if s != [] && IsSpace(s[0]) then " " else ""
  }

  /** The space Squeeze leaves after the last word, if `s` ends with whitespace after one. */
  function Trail(s: string): string
  {
    if s != [] && IsSpace(s[|s| - 1]) && Words(s) != [] then " " else ""
  }

  /** The squeezed text is the words joined by spaces, between Lead and Trail. */
  predicate SqueezedShape(s: string)
  {
    Squeeze(s) == Lead(s) + Join(Words(s)) + Trail(s)
  }

  /** Concatenation regrouped, proved apart from the functions around it. */
  lemma Regroup(a: string, b: string, c: string, d: string)
    ensures a + (b + c + d) == a + b + c + d
  {
  }

  /** What Squeeze, Words, Lead and Trail make of a run of whitespace followed by more text. */
  lemma SpacesThenRest(s: string, n: nat)
    requires s != [] && IsSpace(s[0]) && n == RunLength(s, Whitespace)
    ensures Squeeze(s) == " " + Squeeze(s[n..])
    ensures Words(s) == Words(s[n..])
    ensures Lead(s) == " "
    ensures s[n..] != [] ==> Lead(s[n..]) == "" && Trail(s[n..]) == Trail(s)
    ensures s[n..] == [] ==> Squeeze(s[n..]) == [] && Trail(s) == ""
  {
    var u := s[n..];
    WordsSkipSpaces(s, n);
    if u != [] {
      assert u[|u| - 1] == s[|s| - 1];
    }
  }

  /** The shape for text starting with whitespace follows from the shape of what comes after it. */
  lemma SqueezedAfterSpaces(s: string, n: nat)
    requires s != [] && IsSpace(s[0]) && n == RunLength(s, Whitespace)
    requires SqueezedShape(s[n..])
    ensures SqueezedShape(s)
  {
    var u := s[n..];
    SpacesThenRest(s, n);
    if u == [] {
      assert Words(u) == [];
      calc {
        Squeeze(s);
        " " + Squeeze(u);
        Lead(s) + Join(Words(s)) + Trail(s);
      }
    } else {
      calc {
        Squeeze(s);
        " " + Squeeze(u);
        " " + (Lead(u) + Join(Words(u)) + Trail(u));
        " " + ("" + Join(Words(u)) + Trail(s));
        { Regroup(" ", "", Join(Words(u)), Trail(s)); }
        " " + "" + Join(Words(u)) + Trail(s);
        { assert " " + "" == " "; }
        Lead(s) + Join(Words(s)) + Trail(s);
      }
    }
  }

  /** A text without whitespace is its own squeeze. */
  lemma SqueezePlain(w: string)
    requires forall i :: 0 <= i < |w| ==> !IsSpace(w[i])
    ensures Squeeze(w) == w
  {
    SubRunsCopiesPlainPrefix(w, [], Whitespace, " ");
    assert w + [] == w;
  }

  /** A text that is one word splits into that word. */
  lemma WordsOfWord(s: string)
    requires s != [] && RunLength(s, NonWhitespace) == |s|
    ensures Words(s) == [s]
  {
    assert s[..|s|] == s && s[|s|..] == [];
  }

  /** The shape for text between non-whitespace ends that squeezes and splits into one word. */
  lemma SqueezedSingle(s: string, w: string)
    requires s != [] && !IsSpace(s[0]) && !IsSpace(s[|s| - 1])
    requires Squeeze(s) == w && Words(s) == [w]
    ensures SqueezedShape(s)
  {
    assert Join([w]) == w;
    assert Lead(s) == "" && Trail(s) == "";
    Regroup([], [], w, []);
  }

  /** The shape for text starting with a word that ends it. */
  lemma SqueezedLastWord(s: string)
    requires s != [] && !IsSpace(s[0]) && RunLength(s, NonWhitespace) == |s|
    ensures SqueezedShape(s)
  {
    SqueezePlain(s);
    WordsOfWord(s);
    SqueezedSingle(s, s);
  }

  /** The shape for a word followed by whitespace only. */
  lemma SqueezedWordThenSpaces(s: string, w: string, r: string)
    requires s == w + r && w != [] && w == s[..RunLength(s, NonWhitespace)]
    requires r != [] && Words(r) == [] && SqueezedShape(r)
    ensures SqueezedShape(s)
  {
    WordThenRest(s, w, r);
    NoWordsAllSpaces(r);
    assert s[|s| - 1] == r[|r| - 1];
    assert Squeeze(r) == " ";
  }

  /** What Squeeze, Words, Lead and Trail make of a word followed by more text. */
  lemma WordThenRest(s: string, w: string, r: string)
    requires s == w + r && w != [] && w == s[..RunLength(s, NonWhitespace)] && r != []
    ensures Squeeze(s) == w + Squeeze(r)
    ensures Words(s) == [w] + Words(r)
    ensures Lead(s) == "" && Lead(r) == " "
    ensures Words(r) != [] ==> Trail(s) == Trail(r)
  {
    WordThenRestSqueeze(s, w, r);
    WordThenRestWords(s, w, r);
    WordThenRestEnds(s, w, r);
  }

  /** The squeeze of a word followed by more text copies the word. */
  lemma WordThenRestSqueeze(s: string, w: string, r: string)
    requires s == w + r && w != [] && w == s[..RunLength(s, NonWhitespace)] && r != []
    ensures Squeeze(s) == w + Squeeze(r)
  {
    SubRunsCopiesPlainPrefix(w, r, Whitespace, " ");
  }

  /** The first word of a text that starts with a word. */
  lemma WordThenRestWords(s: string, w: string, r: string)
    requires s == w + r && w != [] && w == s[..RunLength(s, NonWhitespace)] && r != []
    ensures Words(s) == [w] + Words(r)
  {
    assert s[|w|..] == r;
  }

  /** A text starting with a word has no lead, and it ends as the rest ends. */
  lemma WordThenRestEnds(s: string, w: string, r: string)
    requires s == w + r && w != [] && w == s[..RunLength(s, NonWhitespace)] && r != []
    ensures Lead(s) == "" && Lead(r) == " "
    ensures Words(r) != [] ==> Trail(s) == Trail(r)
  {
    assert r[0] == s[|w|];
    assert r[|r| - 1] == s[|s| - 1];
  }

  /** Joining a word before a non-empty list of words puts one space between them. */
  lemma JoinCons(w: string, ws: seq<string>)
    requires ws != []
    ensures Join([w] + ws) == w + " " + Join(ws)
  {
    assert ([w] + ws)[1..] == ws;
  }

  /** How the pieces of a word followed by more words fit together. */
  lemma WordThenWordsParts(squeezed: string, lead: string, joined: string, trail: string,
                           w: string, rest: string, restJoined: string)
    requires squeezed == w + rest && rest == " " + restJoined + trail
    requires joined == w + " " + restJoined && lead == ""
    ensures squeezed == lead + joined + trail
  {
    Regroup(w, " ", restJoined, trail);
  }

  /** The shape for a word followed by whitespace and more words. */
  lemma SqueezedWordThenWords(s: string, w: string, r: string)
    requires s == w + r && w != [] && w == s[..RunLength(s, NonWhitespace)]
    requires r != [] && Words(r) != [] && SqueezedShape(r)
    ensures SqueezedShape(s)
  {
    WordThenRest(s, w, r);
    JoinCons(w, Words(r));
    WordThenWordsParts(Squeeze(s), Lead(s), Join(Words(s)), Trail(s), w, Squeeze(r), Join(Words(r)));
  }

  /** Every text has the squeezed shape. */
  lemma {:induction false} Squeezed(s: string)
    ensures SqueezedShape(s)
    decreases |s|
  {
    if s == [] {
    } else if IsSpace(s[0]) {
      var n := RunLength(s, Whitespace);
      Squeezed(s[n..]);
      SqueezedAfterSpaces(s, n);
    } else {
      var n := RunLength(s, NonWhitespace);
      if n == |s| {
        SqueezedLastWord(s);
      } else {
        var w, r := s[..n], s[n..];
        assert s == w + r;
        Squeezed(r);
        if Words(r) == [] {
          SqueezedWordThenSpaces(s, w, r);
        } else {
          SqueezedWordThenWords(s, w, r);
        }
      }
    }
  }

  /**
   * collapse_whitespace: every run of whitespace becomes one space, then the
   * ends are stripped. The result is collapsed, keeps every other character
   * and adds none but the space.
   */
  function CollapseWhitespace(text: string): (r: string)
    ensures Collapsed(r)
    ensures forall c :: c in r ==> c in text || c == ' '
    ensures forall c :: c in text && !IsSpace(c) ==> c in r
  {
    var squeezed := Squeeze(text);
    var r := Strip(squeezed);
    CollapseIsJoinOfWords(text);
    JoinCollapsed(Words(text));
    SubRunsChars(text, Whitespace, " ");
    assert forall c :: c in text && !IsSpace(c) ==> c in r by {
      forall c | c in text && !IsSpace(c)
        ensures c in r
      {
        assert c in squeezed;
        var i :| 0 <= i < |squeezed| && squeezed[i] == c;
        StripKeepsNonSpace(squeezed, i);
      }
    }
    r
  }

  /** A non-whitespace character survives strip. */
  lemma StripKeepsNonSpace(s: string, i: nat)
    requires i < |s| && !IsSpace(s[i])
    ensures s[i] in Strip(s)
  {
    var u := StripStart(s);
    var k := |s| - |u|;
    assert i >= k;
    assert u[i - k] == s[i];
    var t := StripEnd(u);
    assert i - k < |t|;
    assert t[i - k] == u[i - k];
  }

  /** collapse_whitespace agrees with `" ".join(text.split())`. */
  lemma CollapseIsJoinOfWords(text: string)
    ensures Strip(Squeeze(text)) == Join(Words(text))
  {
    Squeezed(text);
    JoinCollapsed(Words(text));
    StripSurrounding(Lead(text), Join(Words(text)), Trail(text));
  }

  /** Collapsing whitespace twice is collapsing it once. */
  lemma CollapseWhitespaceIdempotent(text: string)
    ensures CollapseWhitespace(CollapseWhitespace(text)) == CollapseWhitespace(text)
  {
    var ws := Words(text);
    CollapseIsJoinOfWords(text);
    CollapseIsJoinOfWords(Join(ws));
    WordsOfJoin(ws);
  }

  // ---------------------------------------------------------------------------
  // expand_abbreviations
  // ---------------------------------------------------------------------------

  /**
   * The text after each substitution of the table, in order; `sub(entry, t)`
   * stands for `re.sub(regex, replacement, t)` of one (regex, replacement)
   * entry, whose patterns are not part of this model.
   */
  function Abbreviate<E>(text: string, table: seq<E>, sub: (E, string) -> string): (r: string)
  {
    if table == [] then text
    else sub(table[|table| - 1], Abbreviate(text, table[..|table| - 1], sub))
  }

  /** Running two tables one after the other is running their concatenation. */
  lemma {:induction false} AbbreviateConcat<E>(text: string, first: seq<E>, second: seq<E>, sub: (E, string) -> string)
    ensures Abbreviate(text, first + second, sub) == Abbreviate(Abbreviate(text, first, sub), second, sub)
    decreases |second|
  {
    if second != [] {
      var n := |second| - 1;
      assert (first + second)[..|first + second| - 1] == first + second[..n];
      assert (first + second)[|first + second| - 1] == second[n];
      AbbreviateConcat(text, first, second[..n], sub);
    } else {
      assert first + second == first;
    }
  }

  /**
   * expand_abbreviations: for English, each entry of the English table is
   * substituted in turn; for any other language the table is never bound,
   * and the call fails.
   */
  method ExpandAbbreviations<E>(text: string, lang: string, abbreviationsEn: seq<E>, sub: (E, string) -> string)
    returns (r: Result<string>)
    ensures lang == "en" <==> r.Success?
    ensures r.Success? ==> r.value == Abbreviate(text, abbreviationsEn, sub)
  {
    if lang != "en" {
      return Failure("UnboundLocalError: _abbreviations");
    }
    var table := abbreviationsEn;
    var t := text;
    var i := 0;
    while i < |table|
      invariant i <= |table|
      invariant t == Abbreviate(text, table[..i], sub)
    {
      assert table[..i + 1][..i] == table[..i];
      t := sub(table[i], t);
      i := i + 1;
    }
    assert table[..|table|] == table;
    return Success(t);
  }

  // ---------------------------------------------------------------------------
  // english_cleaners
  // ---------------------------------------------------------------------------

  /** The characters the English pipeline never leaves in its output. */
  const RemovedByEnglishCleaners: string := ";:-&<>()[]\""

  /**
   * english_cleaners: lowercase, expand times, normalise numbers, expand
   * abbreviations (English table), replace symbols (English), remove the
   * auxiliary symbols and collapse whitespace. The time and number stages
   * are parameters.
   */
  function EnglishCleaners<E>(text: string, expandTime: string -> string, normalizeNumbers: string -> string,
                              abbreviationsEn: seq<E>, sub: (E, string) -> string): (r: string)
    ensures forall c :: c in r ==> c !in RemovedByEnglishCleaners
    ensures Collapsed(r)
  {
    var lowered := Lowercase(text);
    var timed := expandTime(lowered);
    var numbered := normalizeNumbers(timed);
    var expanded := Abbreviate(numbered, abbreviationsEn, sub);
    var replaced := ReplaceSymbols(expanded, "en");
    ReplaceSymbolsAmpersand(expanded, "en");
    var cleaned := RemoveAuxSymbols(replaced);
    CollapseWhitespace(cleaned)
  }
}
