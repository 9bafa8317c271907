/**
 * Key-format conversion (src/utils/globalUtils.ts, convertCase): the key is
 * trimmed, every run of white space, `_` or `-` becomes one space, the text is
 * split into words at spaces and the words are re-joined in the configured
 * case style. The configured style is a parameter here. Case mapping is ASCII.
 */
module KeyFormat {
  import opened Strings

  /** The `keyFormat` setting; `Unchanged` stands for every other value, including `None`. */
  datatype Format = CamelCase | PascalCase | SnakeCase | KebabCase | Unchanged

  /** The characters of `[\s_-]` (when `spaceOnly` is false) or of `\s` (when it is true). */
  predicate InClass(c: char, spaceOnly: bool) {
    IsSpace(c) || (!spaceOnly && (c == '_' || c == '-'))
  }

  /** The text after the leading run of class characters. */
  function DropRun(s: string, spaceOnly: bool): (r: string)
    ensures |r| <= |s|
    ensures r == [] || !InClass(r[0], spaceOnly)
  {
    if s != [] && InClass(s[0], spaceOnly) then DropRun(s[1..], spaceOnly) else s
  }

  /** `s.replace(/[\s_-]+/g, ' ')` or `s.replace(/\s+/g, ' ')`: every maximal run of class characters becomes one space. */
  function CollapseRuns(s: string, spaceOnly: bool): string
    decreases |s|
  {
    if s == [] then []
    else if InClass(s[0], spaceOnly) then " " + CollapseRuns(DropRun(s[1..], spaceOnly), spaceOnly)
    else [s[0]] + CollapseRuns(s[1..], spaceOnly)
  }

  /** The normalised input of convertCase. */
  function Normalize(key: string): string {
    CollapseRuns(CollapseRuns(Trim(key), false), true)
  }

  /** The words convertCase formats. */
  function Words(key: string): seq<string> {
    Split(Normalize(key), ' ')
  }

  /** `word.charAt(0).toUpperCase() + word.slice(1).toLowerCase()`. */
  function Capitalized(w: string): string {
    if w == [] then [] else [Upper(w[0])] + LowerStr(w[1..])
  }

  function LowerAll(ws: seq<string>): (r: seq<string>)
    ensures |r| == |ws|
  {
    seq(|ws|, i requires 0 <= i < |ws| => LowerStr(ws[i]))
  }

  function CapitalizedAll(ws: seq<string>): (r: seq<string>)
    ensures |r| == |ws|
  {
    seq(|ws|, i requires 0 <= i < |ws| => Capitalized(ws[i]))
  }

  /** convertCase with `keyFormat` given. */
  function ConvertCase(format: Format, key: string): (r: string)
    ensures format == Unchanged ==> r == key
  {
    var words := Words(key);
    match format
    case CamelCase => Join([LowerStr(words[0])] + CapitalizedAll(words[1..]), "")
    case PascalCase => Join(CapitalizedAll(words), "")
    case SnakeCase => Join(LowerAll(words), "_")
    case KebabCase => Join(LowerAll(words), "-")
    case Unchanged => key
  }

  // ---------------------------------------------------------------------------
  // What normalisation produces

  /** Only spaces and characters outside `[\s_-]`, and never two spaces in a row. */
  predicate Collapsed(t: string) {
    && (forall i | 0 <= i < |t| :: t[i] == ' ' || !InClass(t[i], false))
    && (forall i | 0 <= i < |t| - 1 :: !(t[i] == ' ' && t[i + 1] == ' '))
  }

  /** The characters outside the class, in order. */
  function Kept(s: string, spaceOnly: bool): string
    decreases |s|
  {
    if s == [] then [] else (if InClass(s[0], spaceOnly) then [] else [s[0]]) + Kept(s[1..], spaceOnly)
  }

  /** A run of class characters holds nothing that is kept. */
  lemma {:induction false} KeptDropRun(s: string, spaceOnly: bool)
    ensures Kept(DropRun(s, spaceOnly), spaceOnly) == Kept(s, spaceOnly)
    decreases |s|
  {
    if s != [] && InClass(s[0], spaceOnly) {
      KeptDropRun(s[1..], spaceOnly);
    }
  }

  /**
   * Collapsing keeps every character outside the class, in order, puts only
   * spaces in between, and (for `[\s_-]`) leaves no two spaces side by side.
   */
  lemma {:induction false} CollapseRunsSpec(s: string, spaceOnly: bool)
    ensures var r := CollapseRuns(s, spaceOnly);
      && Kept(r, spaceOnly) == Kept(s, spaceOnly)
      && (r != [] ==> s != [] && r[0] == (if InClass(s[0], spaceOnly) then ' ' else s[0]))
      && (!spaceOnly ==> Collapsed(r))
    decreases |s|
  {
    if s != [] {
      var r := CollapseRuns(s, spaceOnly);
      if InClass(s[0], spaceOnly) {
        var d := DropRun(s[1..], spaceOnly);
        CollapseRunsSpec(d, spaceOnly);
        KeptDropRun(s[1..], spaceOnly);
        var t := CollapseRuns(d, spaceOnly);
        assert r == " " + t;
        assert Kept(r, spaceOnly) == Kept(t, spaceOnly);
        if !spaceOnly {
          forall i | 0 <= i < |r| - 1
            ensures !(r[i] == ' ' && r[i + 1] == ' ')
          {
            if i > 0 {
              assert r[i] == t[i - 1] && r[i + 1] == t[i];
            }
          }
        }
      } else {
        CollapseRunsSpec(s[1..], spaceOnly);
        var t := CollapseRuns(s[1..], spaceOnly);
        assert r == [s[0]] + t;
        if !spaceOnly {
          forall i | 0 <= i < |r| - 1
            ensures !(r[i] == ' ' && r[i + 1] == ' ')
          {
            if i > 0 {
              assert r[i] == t[i - 1] && r[i + 1] == t[i];
            }
          }
        }
      }
    }
  }

  /** The second replacement, `/\s+/g` to a space, finds only single spaces and changes nothing. */
  lemma {:induction false} CollapseCollapsed(t: string)
    requires Collapsed(t)
    ensures CollapseRuns(t, true) == t
    decreases |t|
  {
    if t != [] {
      assert Collapsed(t[1..]);
      CollapseCollapsed(t[1..]);
      if t[0] == ' ' {
        assert t[1..] == [] || t[1] != ' ';
        assert DropRun(t[1..], true) == t[1..];
      }
    }
  }

  /**
   * Normalisation trims the key, keeps every character outside `[\s_-]` in
   * order and replaces each run of white space, `_` or `-` by exactly one space.
   */
  lemma NormalizeSpec(key: string)
    ensures Collapsed(Normalize(key))
    ensures Kept(Normalize(key), false) == Kept(Trim(key), false)
    ensures Normalize(key) == CollapseRuns(Trim(key), false)
  {
    CollapseRunsSpec(Trim(key), false);
    CollapseCollapsed(CollapseRuns(Trim(key), false));
  }

  // ---------------------------------------------------------------------------
  // Words

  /** No character of the class in any word. */
  predicate Plain(ws: seq<string>) {
    forall i, j | 0 <= i < |ws| && 0 <= j < |ws[i]| :: !InClass(ws[i][j], false)
  }

  /** Only the first and the last word may be empty. */
  predicate InteriorNonEmpty(ws: seq<string>) {
    forall i | 0 < i < |ws| - 1 :: ws[i] != []
  }

  /** A collapsed text stays collapsed after any of its spaces. */
  lemma CollapsedTail(t: string, i: nat)
    requires Collapsed(t) && i < |t|
    ensures Collapsed(t[i + 1..])
    ensures t[i] == ' ' && i + 1 < |t| ==> t[i + 1] != ' '
  {
    var tail := t[i + 1..];
    forall k | 0 <= k < |tail|
      ensures tail[k] == ' ' || !InClass(tail[k], false)
    {
      assert tail[k] == t[i + 1 + k];
    }
    forall k | 0 <= k < |tail| - 1
      ensures !(tail[k] == ' ' && tail[k + 1] == ' ')
    {
      assert tail[k] == t[i + 1 + k] && tail[k + 1] == t[i + 2 + k];
    }
  }

  /** The text of a collapsed string before a position holding no space is a plain word. */
  lemma CollapsedPrefixPlain(t: string, n: nat)
    requires Collapsed(t) && n <= |t|
    requires forall k | 0 <= k < n :: t[k] != ' '
    ensures forall b | 0 <= b < n :: !InClass(t[..n][b], false)
  {
  }

  /** A plain word before plain words gives plain words. */
  lemma PlainCons(w: string, rest: seq<string>)
    requires forall b | 0 <= b < |w| :: !InClass(w[b], false)
    requires Plain(rest)
    ensures Plain([w] + rest)
  {
    var parts := [w] + rest;
    forall a, b | 0 <= a < |parts| && 0 <= b < |parts[a]|
      ensures !InClass(parts[a][b], false)
    {
      if a > 0 {
        assert parts[a] == rest[a - 1];
      }
    }
  }

  /** Any word before words whose first is non-empty keeps the interior non-empty. */
  lemma InteriorCons(w: string, rest: seq<string>)
    requires |rest| >= 1 && rest[0] != []
    requires InteriorNonEmpty(rest)
    ensures InteriorNonEmpty([w] + rest)
  {
    var parts := [w] + rest;
    forall a | 0 < a < |parts| - 1
      ensures parts[a] != []
    {
      assert parts[a] == rest[a - 1];
    }
  }

  /** A collapsed text without a space splits into itself, a plain word. */
  lemma SplitCollapsedWord(t: string)
    requires Collapsed(t) && IndexOfChar(t, ' ') == -1
    ensures Plain(Split(t, ' ')) && InteriorNonEmpty(Split(t, ' '))
  {
    IndexOfCharFirst(t, ' ');
    CollapsedPrefixPlain(t, |t|);
    assert t[..|t|] == t;
    assert Split(t, ' ') == [t];
  }

  /** Splitting a collapsed text at spaces gives plain words, only the first and last possibly empty. */
  lemma {:induction false} SplitCollapsed(t: string)
    requires Collapsed(t)
    ensures Plain(Split(t, ' ')) && InteriorNonEmpty(Split(t, ' '))
    decreases |t|
  {
    IndexOfCharFirst(t, ' ');
    var i := IndexOfChar(t, ' ');
    if i == -1 {
      SplitCollapsedWord(t);
    } else {
      var tail := t[i + 1..];
      CollapsedTail(t, i);
      SplitCollapsed(tail);
      var rest := Split(tail, ' ');
      assert Split(t, ' ') == [t[..i]] + rest;
      CollapsedPrefixPlain(t, i);
      PlainCons(t[..i], rest);
      if tail != [] {
        assert tail[0] == t[i + 1];
        IndexOfCharFirst(tail, ' ');
        assert IndexOfChar(tail, ' ') != 0;
        assert rest[0] != [];
        InteriorCons(t[..i], rest);
      } else {
        assert rest == [[]];
      }
    }
  }

  /** The words of any key are plain, and only the first and last may be empty. */
  lemma WordsSpec(key: string)
    ensures Plain(Words(key)) && InteriorNonEmpty(Words(key))
    ensures Join(Words(key), " ") == Normalize(key)
  {
    NormalizeSpec(key);
    SplitCollapsed(Normalize(key));
    JoinSplit(Normalize(key), ' ');
  }

  // ---------------------------------------------------------------------------
  // What the formats produce

  /** Every character of a join comes from a part or from the separator. */
  lemma {:induction false} JoinChars(ws: seq<string>, sep: string, c: char)
    requires c in Join(ws, sep)
    ensures c in sep || exists i | 0 <= i < |ws| :: c in ws[i]
    decreases |ws|
  {
    if |ws| > 1 {
      assert Join(ws, sep) == ws[0] + sep + Join(ws[1..], sep);
      if c !in ws[0] && c !in sep {
        JoinChars(ws[1..], sep, c);
        var i :| 0 <= i < |ws[1..]| && c in ws[1..][i];
        assert c in ws[i + 1];
      }
    }
  }

  /** ASCII case mapping never turns a character into or out of the class. */
  lemma CaseKeepsClass(c: char)
    ensures InClass(Lower(c), false) == InClass(c, false)
    ensures InClass(Upper(c), false) == InClass(c, false)
  {
  }

  /** A join of words and a separator without characters of the class contains none either. */
  lemma JoinPlain(ws: seq<string>, sep: string, spaceOnly: bool)
    requires forall i, j | 0 <= i < |ws| && 0 <= j < |ws[i]| :: !InClass(ws[i][j], spaceOnly)
    requires forall k | 0 <= k < |sep| :: !InClass(sep[k], spaceOnly)
    ensures forall k | 0 <= k < |Join(ws, sep)| :: !InClass(Join(ws, sep)[k], spaceOnly)
  {
    forall k | 0 <= k < |Join(ws, sep)|
      ensures !InClass(Join(ws, sep)[k], spaceOnly)
    {
      var c := Join(ws, sep)[k];
      JoinChars(ws, sep, c);
      if c !in sep {
        var i :| 0 <= i < |ws| && c in ws[i];
        var j :| 0 <= j < |ws[i]| && ws[i][j] == c;
      }
    }
  }

  /** Lower-casing, and capitalising, each word keeps the words plain. */
  lemma CasedPlain(ws: seq<string>)
    requires Plain(ws)
    ensures Plain(LowerAll(ws)) && Plain(CapitalizedAll(ws))
  {
    forall i, j | 0 <= i < |ws| && 0 <= j < |ws[i]|
      ensures !InClass(LowerAll(ws)[i][j], false) && !InClass(CapitalizedAll(ws)[i][j], false)
    {
      CaseKeepsClass(ws[i][j]);
      if j > 0 {
        assert CapitalizedAll(ws)[i][j] == Lower(ws[i][j]);
      }
    }
  }

  /** snake_case output holds no white space and no `-`. */
  lemma SnakeCaseSeparators(key: string)
    ensures forall k | 0 <= k < |ConvertCase(SnakeCase, key)| ::
      !IsSpace(ConvertCase(SnakeCase, key)[k]) && ConvertCase(SnakeCase, key)[k] != '-'
  {
    WordsSpec(key);
    CasedPlain(Words(key));
    var ws := LowerAll(Words(key));
    forall k | 0 <= k < |Join(ws, "_")|
      ensures !IsSpace(Join(ws, "_")[k]) && Join(ws, "_")[k] != '-'
    {
      var c := Join(ws, "_")[k];
      JoinChars(ws, "_", c);
      if c != '_' {
        var i :| 0 <= i < |ws| && c in ws[i];
        var j :| 0 <= j < |ws[i]| && ws[i][j] == c;
      }
    }
  }

  /** kebab-case output holds no white space and no `_`. */
  lemma KebabCaseSeparators(key: string)
    ensures forall k | 0 <= k < |ConvertCase(KebabCase, key)| ::
      !IsSpace(ConvertCase(KebabCase, key)[k]) && ConvertCase(KebabCase, key)[k] != '_'
  {
    WordsSpec(key);
    CasedPlain(Words(key));
    var ws := LowerAll(Words(key));
    forall k | 0 <= k < |Join(ws, "-")|
      ensures !IsSpace(Join(ws, "-")[k]) && Join(ws, "-")[k] != '_'
    {
      var c := Join(ws, "-")[k];
      JoinChars(ws, "-", c);
      if c != '-' {
        var i :| 0 <= i < |ws| && c in ws[i];
        var j :| 0 <= j < |ws[i]| && ws[i][j] == c;
      }
    }
  }

  /** camelCase and PascalCase output hold no white space, `_` or `-`. */
  lemma CamelAndPascalNoSeparators(key: string)
    ensures forall k | 0 <= k < |ConvertCase(CamelCase, key)| :: !InClass(ConvertCase(CamelCase, key)[k], false)
    ensures forall k | 0 <= k < |ConvertCase(PascalCase, key)| :: !InClass(ConvertCase(PascalCase, key)[k], false)
  {
    var words := Words(key);
    WordsSpec(key);
    CasedPlain(words);
    CasedPlain(words[1..]);
    var camel := [LowerStr(words[0])] + CapitalizedAll(words[1..]);
    forall i, j | 0 <= i < |camel| && 0 <= j < |camel[i]|
      ensures !InClass(camel[i][j], false)
    {
      if i == 0 {
        assert camel[0][j] == LowerAll(words)[0][j];
      } else {
        assert camel[i] == CapitalizedAll(words[1..])[i - 1];
      }
    }
    JoinPlain(camel, "", false);
    JoinPlain(CapitalizedAll(words), "", false);
  }

  /** Lower-casing distributes over a join. */
  lemma {:induction false} LowerJoin(ws: seq<string>, sep: string)
    ensures LowerStr(Join(ws, sep)) == Join(LowerAll(ws), LowerStr(sep))
    decreases |ws|
  {
    if |ws| > 1 {
      LowerJoin(ws[1..], sep);
      assert LowerAll(ws)[1..] == LowerAll(ws[1..]);
      assert LowerStr(ws[0] + sep + Join(ws[1..], sep)) == LowerStr(ws[0]) + LowerStr(sep) + LowerStr(Join(ws[1..], sep));
    }
  }

  /** Lower-casing a capitalised word, or a lower-cased one, gives the lower-cased word. */
  lemma LowerCased(w: string)
    ensures LowerStr(Capitalized(w)) == LowerStr(w)
    ensures LowerStr(LowerStr(w)) == LowerStr(w)
  {
  }

  /**
   * Apart from letter case, camelCase and PascalCase are the words run
   * together: lower-casing either gives the lower-cased words joined with nothing.
   */
  lemma CamelAndPascalAreTheWords(key: string)
    ensures LowerStr(ConvertCase(CamelCase, key)) == Join(LowerAll(Words(key)), "")
    ensures LowerStr(ConvertCase(PascalCase, key)) == Join(LowerAll(Words(key)), "")
  {
    var words := Words(key);
    var camel := [LowerStr(words[0])] + CapitalizedAll(words[1..]);
    LowerJoin(camel, "");
    LowerJoin(CapitalizedAll(words), "");
    forall i | 0 <= i < |words|
      ensures LowerAll(camel)[i] == LowerAll(words)[i] && LowerAll(CapitalizedAll(words))[i] == LowerAll(words)[i]
    {
      LowerCased(words[i]);
      if i > 0 {
        assert camel[i] == Capitalized(words[i]);
      }
    }
    assert LowerAll(camel) == LowerAll(words);
    assert LowerAll(CapitalizedAll(words)) == LowerAll(words);
  }

  /** camelCase begins with the first word lower-cased. */
  lemma CamelCaseShape(key: string)
    ensures var words := Words(key);
      StartsWith(ConvertCase(CamelCase, key), LowerStr(words[0]))
  {
    var words := Words(key);
    var camel := [LowerStr(words[0])] + CapitalizedAll(words[1..]);
    if |camel| > 1 {
      JoinCons(camel[0], camel[1..], "");
    }
  }

  // ---------------------------------------------------------------------------
  // Idempotence of snake_case and kebab-case

  /** Collapsing a text with no character of the class changes nothing. */
  lemma {:induction false} CollapsePlain(w: string, rest: string, spaceOnly: bool)
    requires forall j | 0 <= j < |w| :: !InClass(w[j], spaceOnly)
    ensures CollapseRuns(w + rest, spaceOnly) == w + CollapseRuns(rest, spaceOnly)
    decreases |w|
  {
    if w != [] {
      var s := w + rest;
      assert s[0] == w[0] && !InClass(s[0], spaceOnly) && s[1..] == w[1..] + rest;
      assert CollapseRuns(s, spaceOnly) == [w[0]] + CollapseRuns(w[1..] + rest, spaceOnly);
      CollapsePlain(w[1..], rest, spaceOnly);
      assert w == [w[0]] + w[1..];
    } else {
      assert w + rest == rest;
    }
  }

  /**
   * Plain words joined by one class character, with no empty word inside,
   * collapse to the same words joined by one space.
   */
  lemma {:induction false} CollapseJoin(ws: seq<string>, sep: char, spaceOnly: bool)
    requires InClass(sep, spaceOnly)
    requires forall i, j | 0 <= i < |ws| && 0 <= j < |ws[i]| :: !InClass(ws[i][j], spaceOnly)
    requires InteriorNonEmpty(ws)
    ensures CollapseRuns(Join(ws, [sep]), spaceOnly) == Join(ws, " ")
    decreases |ws|
  {
    if |ws| == 1 {
      CollapsePlain(ws[0], [], spaceOnly);
      assert ws[0] + [] == ws[0];
    } else if |ws| > 1 {
      var rest := Join(ws[1..], [sep]);
      assert Join(ws, [sep]) == ws[0] + ([sep] + rest);
      CollapsePlain(ws[0], [sep] + rest, spaceOnly);
      CollapseJoin(ws[1..], sep, spaceOnly);
      assert rest == [] || !InClass(rest[0], spaceOnly) by {
        if |ws| > 2 {
          assert ws[1] != [];
          JoinCons(ws[1], ws[2..], [sep]);
          assert ws[1..] == [ws[1]] + ws[2..];
          assert rest[0] == ws[1][0];
        } else {
          assert rest == ws[1];
          if rest != [] {
            assert rest[0] == ws[1][0];
          }
        }
      }
      assert ([sep] + rest)[1..] == rest;
      assert DropRun(rest, spaceOnly) == rest;
      assert Join(ws, " ") == ws[0] + " " + Join(ws[1..], " ");
    }
  }

  /** Splitting words joined by a space, none holding a space, gives the words back. */
  lemma {:induction false} SplitJoin(ws: seq<string>)
    requires ws != []
    requires forall i, j | 0 <= i < |ws| && 0 <= j < |ws[i]| :: ws[i][j] != ' '
    ensures Split(Join(ws, " "), ' ') == ws
    decreases |ws|
  {
    var s := Join(ws, " ");
    IndexOfCharSpec(ws[0], ' ');
    if |ws| == 1 {
      IndexOfCharSpec(s, ' ');
    } else {
      var rest := Join(ws[1..], " ");
      assert s == ws[0] + " " + rest;
      IndexOfCharFirst(s, ' ');
      var i := IndexOfChar(s, ' ');
      assert s[|ws[0]|] == ' ';
      forall k | 0 <= k < |ws[0]|
        ensures s[k] != ' '
      {
        assert s[k] == ws[0][k];
      }
      assert i == |ws[0]|;
      assert s[..i] == ws[0];
      assert s[i + 1..] == rest;
      SplitJoin(ws[1..]);
      assert ws == [ws[0]] + ws[1..];
    }
  }

  /** The lower-cased words of a key, joined by `sep`, normalise back to those words. */
  lemma WordsOfJoined(key: string, sep: char)
    requires sep == '_' || sep == '-'
    ensures Words(Join(LowerAll(Words(key)), [sep])) == LowerAll(Words(key))
  {
    var ws := LowerAll(Words(key));
    WordsSpec(key);
    CasedPlain(Words(key));
    assert InteriorNonEmpty(ws) by {
      forall i | 0 < i < |ws| - 1
        ensures ws[i] != []
      {
        assert Words(key)[i] != [];
      }
    }
    var o := Join(ws, [sep]);
    assert forall i, j | 0 <= i < |ws| && 0 <= j < |ws[i]| :: !InClass(ws[i][j], true);
    JoinPlain(ws, [sep], true);
    assert forall k | 0 <= k < |o| :: !IsSpace(o[k]);
    TrimStartNoSpace(o);
    TrimEndNoSpace(o);
    assert Trim(o) == o;
    CollapseJoin(ws, sep, false);
    var spaced := Join(ws, " ");
    CollapseJoin(ws, ' ', true);
    assert Join(ws, [' ']) == spaced;
    assert Normalize(o) == spaced;
    SplitJoin(ws);
  }

  /** Lower-casing twice is lower-casing once. */
  lemma LowerAllTwice(ws: seq<string>)
    ensures LowerAll(LowerAll(ws)) == LowerAll(ws)
  {
    forall i | 0 <= i < |ws|
      ensures LowerAll(LowerAll(ws))[i] == LowerAll(ws)[i]
    {
      LowerCased(ws[i]);
    }
  }

  /** Converting a snake_case key to snake_case again returns it unchanged. */
  lemma SnakeCaseIdempotent(key: string)
    ensures ConvertCase(SnakeCase, ConvertCase(SnakeCase, key)) == ConvertCase(SnakeCase, key)
  {
    WordsOfJoined(key, '_');
    LowerAllTwice(Words(key));
  }

  /** Converting a kebab-case key to kebab-case again returns it unchanged. */
  lemma KebabCaseIdempotent(key: string)
    ensures ConvertCase(KebabCase, ConvertCase(KebabCase, key)) == ConvertCase(KebabCase, key)
  {
    WordsOfJoined(key, '-');
    LowerAllTwice(Words(key));
  }
}
