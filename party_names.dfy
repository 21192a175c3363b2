/** Organization-name normalizer of the pipeline (`party_standarization`,
    peru_party_switchers/code/sql/db_config.py:212-282).

    A raw organization label goes through four stages, in this order:
    a per-character substitution, whitespace collapsing, an ordered list of
    replace-all rules and an ordered list of (substring, canonical) exception
    rules that overwrite the whole name. */
module PartyNames {

  // ---------------------------------------------------------------------------
  // Stage 1: per-character substitution (`reple`, line 267, table at 238-239)
  // ---------------------------------------------------------------------------

  /** The characters the substitution table rewrites. */
  predicate Substituted(c: char)
  {
    c in "ÁÉÍÓÚ-,.\"+"
  }

  /** `rep_dic.get(c, c)`: the five acute capitals lose the accent, five
      punctuation marks become spaces, everything else is kept. */
  function ReplChar(c: char): char
  {
    if c == 'Á' then 'A'
    else if c == 'É' then 'E'
    else if c == 'Í' then 'I'
    else if c == 'Ó' then 'O'
    else if c == 'Ú' then 'U'
    else if c == '-' || c == ',' || c == '.' || c == '"' || c == '+' then ' '
    else c
  }

  /** The accent half of `rep_dic`: the five acute capitals. */
  const Plain: map<char, char> := map['Á' := 'A', 'É' := 'E', 'Í' := 'I', 'Ó' := 'O', 'Ú' := 'U']

  /** `''.join([rep_dic.get(c, c) for c in x])`. */
  function Reple(s: string): (r: string)
    ensures |r| == |s|
    ensures forall i :: 0 <= i < |s| && s[i] in Plain ==> r[i] == Plain[s[i]]
    ensures forall i :: 0 <= i < |s| ==> !Substituted(r[i])
    ensures forall i :: 0 <= i < |s| && !Substituted(s[i]) ==> r[i] == s[i]
    ensures forall i :: 0 <= i < |s| && s[i] in "-,.\"+" ==> r[i] == ' '
  {
    seq(|s|, i requires 0 <= i < |s| => ReplChar(s[i]))
  }

  /** The character pass changes nothing the second time: none of its
      outputs is in the table. */
  lemma RepleIdempotent(s: string)
    ensures Reple(Reple(s)) == Reple(s)
  {
  }

  // ---------------------------------------------------------------------------
  // Stage 2: whitespace collapsing (`clean`, line 268): ' '.join(x.split())
  // ---------------------------------------------------------------------------

  /** Python's `str.isspace` for one character; `str.split()` splits on these. */
  predicate IsSpace(c: char)
  {
    || c == ' ' || c == '\t' || c == '\n' || c == '\r'
    || c == '\U{000B}' || c == '\U{000C}'
    || ('\U{001C}' <= c <= '\U{001F}')
    || c == '\U{0085}' || c == '\U{00A0}' || c == '\U{1680}'
    || ('\U{2000}' <= c <= '\U{200A}')
    || c == '\U{2028}' || c == '\U{2029}' || c == '\U{202F}' || c == '\U{205F}'
    || c == '\U{3000}'
  }

  /** A non-empty run of non-whitespace characters. */
  ghost predicate IsWord(w: string)
  {
    w != [] && forall i :: 0 <= i < |w| ==> !IsSpace(w[i])
  }

  /** The leading run of non-whitespace characters. */
  function LeadingWord(s: string): (w: string)
    ensures |w| <= |s| && w == s[..|w|]
    ensures forall i :: 0 <= i < |w| ==> !IsSpace(w[i])
    ensures |w| < |s| ==> IsSpace(s[|w|])
  {
    if s == [] || IsSpace(s[0]) then [] else [s[0]] + LeadingWord(s[1..])
  }

  /** `str.split()` with no separator: the maximal non-whitespace runs. */
  function Split(s: string): (ws: seq<string>)
    ensures forall k :: 0 <= k < |ws| ==> IsWord(ws[k])
    decreases |s|
  {
    if s == [] then []
    else if IsSpace(s[0]) then Split(s[1..])
    else
      var w := LeadingWord(s);
      [w] + Split(s[|w|..])
  }

  /** `' '.join(ws)`. */
  function Join(ws: seq<string>): string
  {
    if ws == [] then ""
    else if |ws| == 1 then ws[0]
    else ws[0] + " " + Join(ws[1..])
  }

  function Clean(s: string): string
  {
    Join(Split(s))
  }

  /** The normal form `clean` produces: whitespace only as single spaces
      strictly inside the name. */
  ghost predicate IsClean(s: string)
  {
    && (forall i :: 0 <= i < |s| && IsSpace(s[i]) ==> s[i] == ' ')
    && (|s| > 0 ==> s[0] != ' ' && s[|s| - 1] != ' ')
    && (forall i :: 0 <= i < |s| - 1 ==> !(s[i] == ' ' && s[i + 1] == ' '))
  }

  /** The characters of `s` that are not whitespace, in order. */
  function NonSpace(s: string): string
  {
    if s == [] then [] else (if IsSpace(s[0]) then [] else [s[0]]) + NonSpace(s[1..])
  }

  function Concat(ws: seq<string>): string
  {
    if ws == [] then [] else ws[0] + Concat(ws[1..])
  }

  lemma {:induction false} NonSpaceAppend(a: string, b: string)
    ensures NonSpace(a + b) == NonSpace(a) + NonSpace(b)
  {
    if a != [] {
      assert (a + b)[1..] == a[1..] + b;
      NonSpaceAppend(a[1..], b);
    } else {
      assert a + b == b;
    }
  }

  lemma {:induction false} NonSpaceOfWord(w: string)
    requires forall i :: 0 <= i < |w| ==> !IsSpace(w[i])
    ensures NonSpace(w) == w
  {
    if w != [] {
      NonSpaceOfWord(w[1..]);
      assert w == [w[0]] + w[1..];
    }
  }

  /** A word, one space and a clean name that starts with a word make a
      clean name. */
  lemma JoinTwoClean(w: string, rest: string)
    requires IsWord(w) && IsClean(rest) && rest != [] && !IsSpace(rest[0])
    ensures IsClean(w + " " + rest)
  {
    var j := w + " " + rest;
    forall i | 0 <= i < |j| - 1 ensures !(j[i] == ' ' && j[i + 1] == ' ') {
      if i < |w| - 1 {
        assert j[i] == w[i];
      } else if i == |w| - 1 {
        assert j[i] == w[i];
      } else if i == |w| {
        assert j[i + 1] == rest[0];
      } else {
        assert j[i] == rest[i - |w| - 1] && j[i + 1] == rest[i - |w|];
      }
    }
    forall i | 0 <= i < |j| ensures IsSpace(j[i]) ==> j[i] == ' ' {
      if i < |w| {
        assert j[i] == w[i];
      } else if i > |w| {
        assert j[i] == rest[i - |w| - 1];
      }
    }
    assert j[0] == w[0];
    assert j[|j| - 1] == rest[|rest| - 1];
  }

  /** Joining words gives a clean name that starts with the first word. */
  lemma {:induction false} JoinClean(ws: seq<string>)
    requires forall k :: 0 <= k < |ws| ==> IsWord(ws[k])
    ensures IsClean(Join(ws))
    ensures |ws| > 0 ==> Join(ws) != [] && !IsSpace(Join(ws)[0])
  {
    if |ws| > 1 {
      var w, rest := ws[0], Join(ws[1..]);
      JoinClean(ws[1..]);
      assert Join(ws) == w + " " + rest;
      JoinTwoClean(w, rest);
    }
  }

  lemma NonSpaceOfBlank()
    ensures NonSpace(" ") == []
  {
    assert " "[1..] == [];
  }

  /** Joining words adds only whitespace to their characters. */
  lemma {:induction false} JoinNonSpace(ws: seq<string>)
    requires forall k :: 0 <= k < |ws| ==> IsWord(ws[k])
    ensures NonSpace(Join(ws)) == Concat(ws)
  {
    if |ws| == 1 {
      NonSpaceOfWord(ws[0]);
      assert Concat(ws[1..]) == [];
    } else if |ws| > 1 {
      var w, rest := ws[0], Join(ws[1..]);
      JoinNonSpace(ws[1..]);
      var cs := Concat(ws[1..]);
      assert Join(ws) == (w + " ") + rest;
      assert Concat(ws) == w + cs;
      NonSpaceAppend(w + " ", rest);
      NonSpaceAppend(w, " ");
      NonSpaceOfWord(w);
      NonSpaceOfBlank();
      assert NonSpace(w + " ") == w + [];
    }
  }

  lemma JoinIsClean(ws: seq<string>)
    requires forall k :: 0 <= k < |ws| ==> IsWord(ws[k])
    ensures IsClean(Join(ws))
    ensures NonSpace(Join(ws)) == Concat(ws)
    ensures |ws| > 0 ==> Join(ws) != [] && !IsSpace(Join(ws)[0])
  {
    JoinClean(ws);
    JoinNonSpace(ws);
  }

  lemma {:induction false} SplitContent(s: string)
    ensures Concat(Split(s)) == NonSpace(s)
    decreases |s|
  {
    if s != [] {
      if IsSpace(s[0]) {
        SplitContent(s[1..]);
      } else {
        var w := LeadingWord(s);
        assert s == w + s[|w|..];
        SplitContent(s[|w|..]);
        NonSpaceAppend(w, s[|w|..]);
        NonSpaceOfWord(w);
      }
    }
  }

  /** After `clean` a name has no leading or trailing space, no two spaces in
      a row and no other whitespace, and its visible characters are kept. */
  lemma CleanForm(s: string)
    ensures IsClean(Clean(s))
    ensures NonSpace(Clean(s)) == NonSpace(s)
  {
    JoinIsClean(Split(s));
    SplitContent(s);
  }

  lemma {:induction false} LeadingWordOf(w: string, rest: string)
    requires IsWord(w)
    requires rest == [] || IsSpace(rest[0])
    ensures LeadingWord(w + rest) == w
  {
    if |w| > 1 {
      assert (w + rest)[1..] == w[1..] + rest;
      LeadingWordOf(w[1..], rest);
    } else {
      assert (w + rest)[1..] == rest;
    }
  }

  /** Splitting a space-joined list of words gives the words back. */
  lemma {:induction false} SplitJoin(ws: seq<string>)
    requires forall k :: 0 <= k < |ws| ==> IsWord(ws[k])
    ensures Split(Join(ws)) == ws
  {
    if |ws| == 1 {
      assert ws[0] + [] == ws[0];
      LeadingWordOf(ws[0], []);
      assert ws[0][|ws[0]|..] == [];
    } else if |ws| > 1 {
      var w, rest := ws[0], Join(ws[1..]);
      var j := w + (" " + rest);
      assert Join(ws) == j;
      LeadingWordOf(w, " " + rest);
      assert j[|w|..] == " " + rest;
      assert (" " + rest)[1..] == rest;
      SplitJoin(ws[1..]);
    }
  }

  /** Collapsing whitespace twice changes nothing. */
  lemma CleanIdempotent(s: string)
    ensures Clean(Clean(s)) == Clean(s)
  {
    SplitJoin(Split(s));
  }

  // ---------------------------------------------------------------------------
  // Substring search and replace-all (`str.contains`, `str.replace`)
  // ---------------------------------------------------------------------------

  /** `k` occurs in `s` at position `i`. */
  predicate OccursAt(s: string, k: string, i: int)
  {
    0 <= i && i + |k| <= |s| && s[i..i + |k|] == k
  }

  /** `k in s` / `Series.str.contains(k)`: none of the patterns in the rule
      tables contains a regular-expression metacharacter, so the pattern
      match is a plain substring test. */
  predicate Contains(s: string, k: string)
  {
    exists i | 0 <= i <= |s| - |k| :: OccursAt(s, k, i)
  }

  lemma ContainsAt(s: string, k: string, i: int)
    requires OccursAt(s, k, i)
    ensures Contains(s, k)
  {
  }

  /** A pattern with a character the name lacks cannot occur in it. */
  lemma MissingChar(s: string, k: string, c: char)
    requires c in k && c !in s
    ensures !Contains(s, k)
  {
    var j :| 0 <= j < |k| && k[j] == c;
    forall i | 0 <= i && i + |k| <= |s| ensures !OccursAt(s, k, i) {
      assert s[i..i + |k|][j] == s[i + j] != c;
    }
  }

  /** A pattern whose first character does not appear early enough in the
      name cannot occur in it. */
  lemma FirstCharTooLate(s: string, k: string)
    requires k != [] && |k| <= |s| && k[0] !in s[..|s| - |k| + 1]
    ensures !Contains(s, k)
  {
    forall i | 0 <= i && i + |k| <= |s| ensures !OccursAt(s, k, i) {
      assert s[..|s| - |k| + 1][i] == s[i];
    }
  }

  /** `s.replace(k, v)`: left to right, every non-overlapping occurrence. */
  function ReplaceAll(s: string, k: string, v: string): string
    requires |k| > 0
    decreases |s|
  {
    if |s| < |k| then s
    else if s[..|k|] == k then v + ReplaceAll(s[|k|..], k, v)
    else [s[0]] + ReplaceAll(s[1..], k, v)
  }

  /** `s.split(k)` for a non-empty separator. */
  function SplitOn(s: string, k: string): (ps: seq<string>)
    requires |k| > 0
    ensures |ps| > 0
    decreases |s|
  {
    if |s| < |k| then [s]
    else if s[..|k|] == k then [""] + SplitOn(s[|k|..], k)
    else
      var ps := SplitOn(s[1..], k);
      [[s[0]] + ps[0]] + ps[1..]
  }

  /** `sep.join(ps)`. */
  function JoinWith(ps: seq<string>, sep: string): string
    requires |ps| > 0
  {
    if |ps| == 1 then ps[0] else ps[0] + sep + JoinWith(ps[1..], sep)
  }

  lemma {:induction false} ReplaceAllJoinsPieces(s: string, k: string, v: string)
    requires |k| > 0
    ensures ReplaceAll(s, k, v) == JoinWith(SplitOn(s, k), v)
    decreases |s|
  {
    if |s| >= |k| {
      if s[..|k|] == k {
        ReplaceAllJoinsPieces(s[|k|..], k, v);
      } else {
        ReplaceAllJoinsPieces(s[1..], k, v);
        JoinWithCons(s[0], SplitOn(s[1..], k), v);
      }
    }
  }

  lemma {:induction false} SplitOnJoinsBack(s: string, k: string)
    requires |k| > 0
    ensures JoinWith(SplitOn(s, k), k) == s
    decreases |s|
  {
    if |s| >= |k| {
      if s[..|k|] == k {
        SplitOnJoinsBack(s[|k|..], k);
        assert s == k + s[|k|..];
      } else {
        SplitOnJoinsBack(s[1..], k);
        JoinWithCons(s[0], SplitOn(s[1..], k), k);
        assert s == [s[0]] + s[1..];
      }
    }
  }

  /** Replacing is splitting on the key and joining with the replacement,
      and joining the pieces with the key itself gives the name back. */
  lemma ReplaceAllIsSplitJoin(s: string, k: string, v: string)
    requires |k| > 0
    ensures ReplaceAll(s, k, v) == JoinWith(SplitOn(s, k), v)
    ensures JoinWith(SplitOn(s, k), k) == s
  {
    ReplaceAllJoinsPieces(s, k, v);
    SplitOnJoinsBack(s, k);
  }

  lemma JoinWithCons(c: char, ps: seq<string>, sep: string)
    requires |ps| > 0
    ensures JoinWith([[c] + ps[0]] + ps[1..], sep) == [c] + JoinWith(ps, sep)
  {
    var qs := [[c] + ps[0]] + ps[1..];
    if |ps| > 1 {
      assert qs[1..] == ps[1..];
    }
  }

  /** The first piece of a split is a prefix of the name. */
  lemma {:induction false} SplitOnFirstPrefix(s: string, k: string)
    requires |k| > 0
    ensures |SplitOn(s, k)[0]| <= |s| && SplitOn(s, k)[0] == s[..|SplitOn(s, k)[0]|]
    decreases |s|
  {
    if |s| >= |k| && s[..|k|] != k {
      SplitOnFirstPrefix(s[1..], k);
    }
  }

  /** Putting the first character of the name back on a piece without the
      key keeps it free of the key when the name does not start with it. */
  lemma FirstPieceFree(s: string, k: string, q: string)
    requires 0 < |k| <= |s| && s[..|k|] != k
    requires !Contains(q, k) && |q| <= |s| - 1 && q == s[1..][..|q|]
    ensures !Contains([s[0]] + q, k)
  {
    var first := [s[0]] + q;
    assert first == s[..|first|];
    forall i | 0 <= i && i + |k| <= |first| ensures !OccursAt(first, k, i) {
      if i == 0 {
        assert first[..|k|] == s[..|k|];
      } else {
        assert first[i..i + |k|] == q[i - 1..i - 1 + |k|];
        assert !OccursAt(q, k, i - 1);
      }
    }
  }

  /** No piece of a split contains the key: every occurrence was cut. */
  lemma {:induction false} SplitOnPiecesFree(s: string, k: string)
    requires |k| > 0
    ensures forall m :: 0 <= m < |SplitOn(s, k)| ==> !Contains(SplitOn(s, k)[m], k)
    decreases |s|
  {
    if |s| >= |k| {
      if s[..|k|] == k {
        SplitOnPiecesFree(s[|k|..], k);
        var ps := SplitOn(s, k);
        forall m | 0 <= m < |ps| ensures !Contains(ps[m], k) {
          if m > 0 {
            assert ps[m] == SplitOn(s[|k|..], k)[m - 1];
          }
        }
      } else {
        var qs := SplitOn(s[1..], k);
        SplitOnPiecesFree(s[1..], k);
        SplitOnFirstPrefix(s[1..], k);
        FirstPieceFree(s, k, qs[0]);
        var ps := SplitOn(s, k);
        forall m | 0 <= m < |ps| ensures !Contains(ps[m], k) {
          if m > 0 {
            assert ps[m] == qs[m];
          }
        }
      }
    }
  }

  /** A name without the key is left as it is. */
  lemma {:induction false} ReplaceAllAbsent(s: string, k: string, v: string)
    requires |k| > 0 && !Contains(s, k)
    ensures ReplaceAll(s, k, v) == s
    decreases |s|
  {
    if |s| >= |k| {
      assert !OccursAt(s, k, 0);
      assert !Contains(s[1..], k) by {
        forall i | 0 <= i && i + |k| <= |s[1..]| ensures !OccursAt(s[1..], k, i) {
          assert s[1..][i..i + |k|] == s[i + 1..i + 1 + |k|];
          assert !OccursAt(s, k, i + 1);
        }
      }
      ReplaceAllAbsent(s[1..], k, v);
      assert s == [s[0]] + s[1..];
    }
  }

  /** The whole name equal to the key is replaced as a whole. */
  lemma ReplaceAllWhole(k: string, v: string)
    requires |k| > 0
    ensures ReplaceAll(k, k, v) == v
  {
    assert k[..|k|] == k;
    assert k[|k|..] == [];
  }

  // ---------------------------------------------------------------------------
  // Stages 3 and 4: the rule tables (lines 221-236 and 241-265)
  // ---------------------------------------------------------------------------

  /** One row of a rule table: a pattern and what it becomes. */
  datatype Rule = Rule(key: string, value: string)

  ghost predicate KeysNonEmpty(rules: seq<Rule>)
  {
    forall j :: 0 <= j < |rules| ==> |rules[j].key| > 0
  }

  /** The `replace` dictionary, in its insertion order. */
  const Replacements: seq<Rule> := [
    Rule("ALIANZA ELECTORAL ", ""),
    Rule("MOVIMIENTO REGIONAL O DEPARTAMENTAL MOVIMIENTO INDEPENDIENTE REGIONAL", "MR/D"),
    Rule("MOVIMIENTO REGIONAL O DEPARTAMENTAL MOVIMIENTO INDEPENDIENTE", "MR/D"),
    Rule("MOVIMIENTO REGIONAL O DEPARTAMENTAL MOVIMIENTO REGIONAL", "MR/D"),
    Rule("MOVIMIENTO REGIONAL O DEPARTAMENTAL MOVIMIENTO", "MR/D"),
    Rule("MOVIMIENTO REGIONAL O DEPARTAMENTAL", "MR/D"),
    Rule("MOVIMIENTO REGIONAL", "MR/D"),
    Rule("ORGANIZACION POLITICA LOCAL DISTRITAL", "OPLD"),
    Rule("ORGANIZACION POLITICA LOCAL PROVINCIAL", "OPLP"),
    Rule("PARTIDO POLITICO NACIONAL ", ""),
    Rule("PARTIDO POLITICO ", ""),
    Rule("POLPULAR", "POPULAR"),
    Rule("IZQUIERA", "IZQUIERDA")
  ]

  /** The `excepts` list: (substring, canonical name). The canonical names
      of AYLLU and FUERZA SOCIAL are written with a backslash. */
  const Exceptions: seq<Rule> := [
    Rule("AMPLIO", "FRENTE AMPLIO"),
    Rule("ANDE MAR", "MR/D ANDEMAR"),
    Rule("CAMBIO 90", "CAMBIO 90"),
    Rule("FUERZA POPULAR", "FUERZA POPULAR"),
    Rule("GRAN CAMBIO", "PERUANOS POR EL KAMBIO"),
    Rule("KAMBIO", "PERUANOS POR EL KAMBIO"),
    Rule("INTEGRACION AMAZONICA", "INTEGRACION AMAZONICO"),
    Rule("INTEGRACION LORETANA", "INTEGRACION LORETANA MIL"),
    Rule("SOCIALISTA", "PARTIDO SOCIALISTA DEL PERU"),
    Rule("SOLIDARIDAD NACIONAL", "SOLIDARIDAD NACIONAL"),
    Rule("APRA", "APRISTA PERUANO"),
    Rule("APRISTA", "APRISTA PERUANO"),
    Rule("PPC", "POPULAR CRISTIANO"),
    Rule(" FIA ", "FREPAP"),
    Rule("PARA PROGRESO", "ALIANZA POR EL PROGRESO"),
    Rule("PARA EL PROGRESO", "ALIANZA POR EL PROGRESO"),
    Rule("NACIONALISTA", "NACIONALISTA"),
    Rule("FREDEMO", "FREDEMO"),
    Rule("SOMOS PERU", "SOMOS PERU"),
    Rule("DE AFIRMACION", "MOVIMIENTO AFIRMACION SOCIAL"),
    Rule("AYLLU", "MR\\D AYLLU"),
    Rule("ETNOCACERISTA", "ETNOCACERISTA"),
    Rule("FUERZA SOCIAL", "MR\\D FUERZA SOCIAL"),
    Rule("PODEMOS POR EL", "PODEMOS PERU"),
    Rule("POPULAR CRISTIANO", "PARTIDO POPULAR CRISTIANO")
  ]

  lemma TablesWellFormed()
    ensures KeysNonEmpty(Replacements) && KeysNonEmpty(Exceptions)
    ensures |Replacements| == 13 && |Exceptions| == 25
  {
  }

  /** The replace rules applied one after another, each replacing every
      occurrence of its key in the current name. */
  function ApplyReplacements(rules: seq<Rule>, s: string): string
    requires KeysNonEmpty(rules)
    decreases |rules|
  {
    if rules == [] then s
    else
      var last := rules[|rules| - 1];
      ReplaceAll(ApplyReplacements(rules[..|rules| - 1], s), last.key, last.value)
  }

  /** One exception rule: a name containing the key becomes the canonical name. */
  function Except(s: string, r: Rule): string
  {
    if Contains(s, r.key) then r.value else s
  }

  /** The exception rules applied one after another, each to the current name. */
  function ApplyExceptions(rules: seq<Rule>, s: string): string
    decreases |rules|
  {
    if rules == [] then s else Except(ApplyExceptions(rules[..|rules| - 1], s), rules[|rules| - 1])
  }

  /** The name before the exception rules. */
  function Prepared(orgPol: string): string
  {
    TablesWellFormed();
    ApplyReplacements(Replacements, Clean(Reple(orgPol)))
  }

  /** The canonical organization name `p_name` of a raw label `org_pol`. */
  function Standardize(orgPol: string): string
  {
    ApplyExceptions(Exceptions, Prepared(orgPol))
  }

  // ---- properties of the rule passes ----

  lemma {:induction false} ReplacementsSplit(a: seq<Rule>, b: seq<Rule>, s: string)
    requires KeysNonEmpty(a) && KeysNonEmpty(b)
    ensures KeysNonEmpty(a + b)
    ensures ApplyReplacements(a + b, s) == ApplyReplacements(b, ApplyReplacements(a, s))
    decreases |b|
  {
    if b != [] {
      assert (a + b)[..|a + b| - 1] == a + b[..|b| - 1];
      ReplacementsSplit(a, b[..|b| - 1], s);
    } else {
      assert a + b == a;
    }
  }

  /** Rules whose keys do not occur leave the name unchanged. */
  lemma {:induction false} ReplacementsAbsent(rules: seq<Rule>, s: string)
    requires KeysNonEmpty(rules)
    requires forall j :: 0 <= j < |rules| ==> !Contains(s, rules[j].key)
    ensures ApplyReplacements(rules, s) == s
    decreases |rules|
  {
    if rules != [] {
      ReplacementsAbsent(rules[..|rules| - 1], s);
      ReplaceAllAbsent(s, rules[|rules| - 1].key, rules[|rules| - 1].value);
    }
  }

  lemma {:induction false} ExceptionsSplit(a: seq<Rule>, b: seq<Rule>, s: string)
    ensures ApplyExceptions(a + b, s) == ApplyExceptions(b, ApplyExceptions(a, s))
    decreases |b|
  {
    if b != [] {
      assert (a + b)[..|a + b| - 1] == a + b[..|b| - 1];
      ExceptionsSplit(a, b[..|b| - 1], s);
    } else {
      assert a + b == a;
    }
  }

  /** A name that no exception key matches keeps its value. */
  lemma {:induction false} ExceptionsAbsent(rules: seq<Rule>, s: string)
    requires forall j :: 0 <= j < |rules| ==> !Contains(s, rules[j].key)
    ensures ApplyExceptions(rules, s) == s
    decreases |rules|
  {
    if rules != [] {
      ExceptionsAbsent(rules[..|rules| - 1], s);
    }
  }

  /** The exception pass either keeps the name or ends on the canonical name
      of some rule, namely of the last rule that matched. */
  lemma {:induction false} ExceptionsOutcome(rules: seq<Rule>, s: string)
    ensures ApplyExceptions(rules, s) == s
         || exists j :: 0 <= j < |rules| && ApplyExceptions(rules, s) == rules[j].value
    ensures |rules| > 0 && Contains(ApplyExceptions(rules[..|rules| - 1], s), rules[|rules| - 1].key)
         ==> ApplyExceptions(rules, s) == rules[|rules| - 1].value
    decreases |rules|
  {
    if rules != [] {
      var init := rules[..|rules| - 1];
      ExceptionsOutcome(init, s);
      if ApplyExceptions(rules, s) != s && ApplyExceptions(rules, s) != rules[|rules| - 1].value {
        var j :| 0 <= j < |init| && ApplyExceptions(init, s) == init[j].value;
        assert rules[j] == init[j];
      }
    }
  }

  /** The normalizer either keeps the prepared name or returns the canonical
      name of one of the exception rules. */
  lemma StandardizeOutcome(orgPol: string)
    ensures Standardize(orgPol) == Prepared(orgPol)
         || exists j :: 0 <= j < |Exceptions| && Standardize(orgPol) == Exceptions[j].value
  {
    ExceptionsOutcome(Exceptions, Prepared(orgPol));
  }

  /** A prepared name that no exception key matches is the final name. */
  lemma StandardizeNoException(orgPol: string)
    requires forall j :: 0 <= j < |Exceptions| ==> !Contains(Prepared(orgPol), Exceptions[j].key)
    ensures Standardize(orgPol) == Prepared(orgPol)
  {
    ExceptionsAbsent(Exceptions, Prepared(orgPol));
  }

  lemma PrefixOfConcat(a: string, b: string)
    ensures (a + b)[..|a|] == a
  {
  }

  lemma MovimientoKeyShape6()
    ensures Replacements[6].key == "MOVIMIENTO REGIONAL"
  {
  }

  lemma MovimientoKeyShape5()
    ensures Replacements[5].key == Replacements[6].key + " O DEPARTAMENTAL"
  {
  }

  lemma MovimientoKeyShape4()
    ensures Replacements[4].key == Replacements[5].key + " MOVIMIENTO"
  {
  }

  lemma MovimientoKeyShape3()
    ensures Replacements[3].key == Replacements[4].key + " REGIONAL"
  {
  }

  lemma MovimientoKeyShape2()
    ensures Replacements[2].key == Replacements[4].key + " INDEPENDIENTE"
  {
  }

  lemma MovimientoKeyShape1()
    ensures Replacements[1].key == Replacements[2].key + " REGIONAL"
  {
  }

  /** `p` is a proper prefix of `s`. */
  ghost predicate ProperPrefix(p: string, s: string)
  {
    |p| < |s| && s[..|p|] == p
  }

  lemma ProperPrefixOfConcat(a: string, b: string)
    requires b != []
    ensures ProperPrefix(a, a + b)
  {
    PrefixOfConcat(a, b);
  }

  lemma ProperPrefixTransitive(a: string, b: string, c: string)
    requires ProperPrefix(a, b) && ProperPrefix(b, c)
    ensures ProperPrefix(a, c)
  {
    assert c[..|a|] == c[..|b|][..|a|];
  }

  /** Keys built from one another by appending words are proper prefixes of
      the longer ones. */
  lemma NestedKeys(k1: string, k2: string, k3: string, k4: string, k5: string, k6: string)
    requires k5 == k6 + " O DEPARTAMENTAL" && k4 == k5 + " MOVIMIENTO"
    requires k3 == k4 + " REGIONAL" && k2 == k4 + " INDEPENDIENTE" && k1 == k2 + " REGIONAL"
    ensures ProperPrefix(k2, k1)
    ensures ProperPrefix(k4, k1) && ProperPrefix(k4, k2) && ProperPrefix(k4, k3)
    ensures ProperPrefix(k5, k1) && ProperPrefix(k5, k2) && ProperPrefix(k5, k3) && ProperPrefix(k5, k4)
    ensures ProperPrefix(k6, k1) && ProperPrefix(k6, k2) && ProperPrefix(k6, k3) && ProperPrefix(k6, k4)
    ensures ProperPrefix(k6, k5)
  {
    ProperPrefixOfConcat(k2, " REGIONAL");
    ProperPrefixOfConcat(k4, " INDEPENDIENTE");
    ProperPrefixOfConcat(k4, " REGIONAL");
    ProperPrefixOfConcat(k5, " MOVIMIENTO");
    ProperPrefixOfConcat(k6, " O DEPARTAMENTAL");
    ProperPrefixTransitive(k4, k2, k1);
    ProperPrefixTransitive(k5, k4, k1);
    ProperPrefixTransitive(k5, k4, k2);
    ProperPrefixTransitive(k5, k4, k3);
    ProperPrefixTransitive(k6, k5, k1);
    ProperPrefixTransitive(k6, k5, k2);
    ProperPrefixTransitive(k6, k5, k3);
    ProperPrefixTransitive(k6, k5, k4);
  }

  /** The keys of a rule table, in order. */
  function RuleKeys(rules: seq<Rule>): (ks: seq<string>)
    ensures |ks| == |rules| && forall i :: 0 <= i < |rules| ==> ks[i] == rules[i].key
  {
    seq(|rules|, i requires 0 <= i < |rules| => rules[i].key)
  }

  /** Keys `1 .. 6` built as the regional-movement keys are: the third a
      proper prefix of the second, and from the fifth on a proper prefix of
      every earlier one. */
  lemma NestedRun(ks: seq<string>)
    requires |ks| >= 7
    requires ks[5] == ks[6] + " O DEPARTAMENTAL" && ks[4] == ks[5] + " MOVIMIENTO"
    requires ks[3] == ks[4] + " REGIONAL" && ks[2] == ks[4] + " INDEPENDIENTE" && ks[1] == ks[2] + " REGIONAL"
    ensures ProperPrefix(ks[2], ks[1])
    ensures forall i, j :: 1 <= i < j <= 6 && 4 <= j ==> ProperPrefix(ks[j], ks[i])
  {
    NestedKeys(ks[1], ks[2], ks[3], ks[4], ks[5], ks[6]);
  }

  /** The regional-movement keys shorten by dropping trailing words: the
      fifth, sixth and seventh keys are each a proper prefix of every
      `MOVIMIENTO` key listed before them, and the third of the second. */
  lemma MovimientoKeysNested()
    ensures ProperPrefix(RuleKeys(Replacements)[2], RuleKeys(Replacements)[1])
    ensures forall i, j :: 1 <= i < j <= 6 && 4 <= j ==>
      ProperPrefix(RuleKeys(Replacements)[j], RuleKeys(Replacements)[i])
  {
    MovimientoKeyShape5();
    MovimientoKeyShape4();
    MovimientoKeyShape3();
    MovimientoKeyShape2();
    MovimientoKeyShape1();
    NestedRun(RuleKeys(Replacements));
  }

  /** A key longer than the name cannot occur in it. */
  lemma TooLong(s: string, k: string)
    requires |k| > |s|
    ensures !Contains(s, k)
  {
  }

  /** A key with a character the name lacks cannot occur in it. */
  lemma MissingCharAt(s: string, k: string, j: nat)
    requires j < |k| && k[j] !in s
    ensures !Contains(s, k)
  {
    MissingChar(s, k, k[j]);
  }

  lemma SingleReplacement(r: Rule, s: string)
    requires |r.key| > 0
    ensures ApplyReplacements([r], s) == ReplaceAll(s, r.key, r.value)
  {
    assert [r][..0] == [];
  }

  lemma NotInConcat(c: char, a: string, b: string)
    requires c !in a && c !in b
    ensures c !in a + b
  {
  }

  lemma NoZInMovimientoKeys()
    ensures 'Z' !in Replacements[1].key
  {
    MovimientoKeyShape6();
    MovimientoKeyShape5();
    MovimientoKeyShape4();
    MovimientoKeyShape2();
    MovimientoKeyShape1();
    NoZRun(RuleKeys(Replacements));
  }

  /** No key of the regional-movement run has a `Z`: each is the next one
      with words that have none. */
  lemma NoZRun(ks: seq<string>)
    requires |ks| >= 7 && ks[6] == "MOVIMIENTO REGIONAL"
    requires ks[5] == ks[6] + " O DEPARTAMENTAL" && ks[4] == ks[5] + " MOVIMIENTO"
    requires ks[2] == ks[4] + " INDEPENDIENTE" && ks[1] == ks[2] + " REGIONAL"
    ensures 'Z' !in ks[1]
  {
    NotInConcat('Z', ks[6], " O DEPARTAMENTAL");
    NotInConcat('Z', ks[5], " MOVIMIENTO");
    NotInConcat('Z', ks[4], " INDEPENDIENTE");
    NotInConcat('Z', ks[2], " REGIONAL");
  }

  lemma FirstKeyHasZ()
    ensures |Replacements[0].key| == 18 && Replacements[0].key[5] == 'Z'
  {
  }

  /** The first replace rule does not touch the longest regional-movement label. */
  lemma FirstRuleSkipsLongest(k1: string)
    requires k1 == Replacements[1].key
    ensures |Replacements[0].key| > 0
    ensures ReplaceAll(k1, Replacements[0].key, Replacements[0].value) == k1
  {
    NoZInMovimientoKeys();
    FirstKeyHasZ();
    MissingCharAt(k1, Replacements[0].key, 5);
    ReplaceAllAbsent(k1, Replacements[0].key, Replacements[0].value);
  }

  /** The first two replace rules turn the longest regional-movement label into `MR/D`. */
  lemma LongestMovimientoFirstRules(k1: string)
    requires k1 == Replacements[1].key
    ensures KeysNonEmpty(Replacements[..2])
    ensures ApplyReplacements(Replacements[..2], k1) == "MR/D"
  {
    TablesWellFormed();
    FirstRuleSkipsLongest(k1);
    SingleReplacement(Replacements[0], k1);
    assert Replacements[..2][..1] == [Replacements[0]];
    ReplaceAllWhole(k1, Replacements[1].value);
  }

  /** No replace rule after the second one touches `MR/D`. */
  lemma MrdUntouched()
    ensures KeysNonEmpty(Replacements[2..])
    ensures ApplyReplacements(Replacements[2..], "MR/D") == "MR/D"
  {
    TablesWellFormed();
    var rest := Replacements[2..];
    forall j | 0 <= j < |rest| ensures !Contains("MR/D", rest[j].key) {
      TooLong("MR/D", rest[j].key);
    }
    ReplacementsAbsent(rest, "MR/D");
  }

  /** The longest regional-movement label collapses to `MR/D`: the first
      `MOVIMIENTO` rule consumes it whole, and no later rule touches the
      result. */
  lemma LongestMovimientoWins()
    ensures ApplyReplacements(Replacements, Replacements[1].key) == "MR/D"
  {
    LongestMovimientoFirstRules(Replacements[1].key);
    MrdUntouched();
    assert Replacements == Replacements[..2] + Replacements[2..];
    ReplacementsSplit(Replacements[..2], Replacements[2..], Replacements[1].key);
  }

  /** Once the `PPC` rule matches, the name is `POPULAR CRISTIANO`. */
  lemma PpcRule(s: string)
    requires Contains(ApplyExceptions(Exceptions[..12], s), "PPC")
    ensures ApplyExceptions(Exceptions[..13], s) == "POPULAR CRISTIANO"
  {
    assert Exceptions[..13][..12] == Exceptions[..12];
  }

  lemma ExceptionsAbsentRange(s: string, a: nat, b: nat)
    requires a <= b <= |Exceptions|
    requires forall j :: a <= j < b ==> !Contains(s, Exceptions[j].key)
    ensures ApplyExceptions(Exceptions[a..b], s) == s
  {
    ExceptionsAbsent(Exceptions[a..b], s);
  }

  lemma ExceptionsRangeSplit(s: string, a: nat, m: nat, b: nat)
    requires a <= m <= b <= |Exceptions|
    ensures ApplyExceptions(Exceptions[a..b], s) == ApplyExceptions(Exceptions[m..b], ApplyExceptions(Exceptions[a..m], s))
  {
    assert Exceptions[a..b] == Exceptions[a..m] + Exceptions[m..b];
    ExceptionsSplit(Exceptions[a..m], Exceptions[m..b], s);
  }

  lemma PopularCristianoLacks(pc: string)
    requires pc == "POPULAR CRISTIANO"
    ensures 'E' !in pc && 'F' !in pc && 'Y' !in pc
  {
  }

  lemma PopularCristianoPasses13To16(pc: string)
    requires pc == "POPULAR CRISTIANO"
    ensures ApplyExceptions(Exceptions[13..16], pc) == pc
  {
    PopularCristianoLacks(pc);
    MissingCharAt(pc, Exceptions[13].key, 1);
    MissingCharAt(pc, Exceptions[14].key, 10);
    MissingCharAt(pc, Exceptions[15].key, 5);
    ExceptionsAbsentRange(pc, 13, 16);
  }

  lemma PopularCristianoPasses16To18(pc: string)
    requires pc == "POPULAR CRISTIANO"
    ensures ApplyExceptions(Exceptions[16..18], pc) == pc
  {
    PopularCristianoLacks(pc);
    FirstCharTooLate(pc, Exceptions[16].key);
    MissingCharAt(pc, Exceptions[17].key, 2);
    ExceptionsAbsentRange(pc, 16, 18);
  }

  lemma PopularCristianoPasses18To21(pc: string)
    requires pc == "POPULAR CRISTIANO"
    ensures ApplyExceptions(Exceptions[18..21], pc) == pc
  {
    PopularCristianoLacks(pc);
    MissingCharAt(pc, Exceptions[18].key, 7);
    MissingCharAt(pc, Exceptions[19].key, 1);
    MissingCharAt(pc, Exceptions[20].key, 1);
    ExceptionsAbsentRange(pc, 18, 21);
  }

  lemma PopularCristianoPasses21To24(pc: string)
    requires pc == "POPULAR CRISTIANO"
    ensures ApplyExceptions(Exceptions[21..24], pc) == pc
  {
    PopularCristianoLacks(pc);
    MissingCharAt(pc, Exceptions[21].key, 0);
    MissingCharAt(pc, Exceptions[22].key, 0);
    MissingCharAt(pc, Exceptions[23].key, 3);
    ExceptionsAbsentRange(pc, 21, 24);
  }

  lemma PopularCristianoPasses18To24(pc: string)
    requires pc == "POPULAR CRISTIANO"
    ensures ApplyExceptions(Exceptions[18..24], pc) == pc
  {
    PopularCristianoPasses18To21(pc);
    PopularCristianoPasses21To24(pc);
    ExceptionsRangeSplit(pc, 18, 21, 24);
  }

  /** `PPC` is first rewritten to `POPULAR CRISTIANO`, no rule in between
      matches that, and the last rule then rewrites it again: whatever the
      name was, once the `PPC` rule matches it ends as
      `PARTIDO POPULAR CRISTIANO`. */
  lemma PpcEndsAsPartidoPopularCristiano(s: string)
    requires Contains(ApplyExceptions(Exceptions[..12], s), "PPC")
    ensures ApplyExceptions(Exceptions, s) == "PARTIDO POPULAR CRISTIANO"
  {
    var pc := ApplyExceptions(Exceptions[..13], s);
    PpcRule(s);
    PopularCristianoPasses13To16(pc);
    PopularCristianoPasses16To18(pc);
    PopularCristianoPasses18To24(pc);
    ExceptionsRangeSplit(pc, 13, 16, 24);
    ExceptionsRangeSplit(pc, 16, 18, 24);
    ExceptionsRangeSplit(s, 0, 13, 24);
    assert Exceptions[0..13] == Exceptions[..13];
    assert Exceptions[0..24] == Exceptions[..|Exceptions| - 1];
    ContainsAt(pc, Exceptions[24].key, 0);
  }

  /** Every replace rule, in order, over the whole column. */
  method ReplaceColumn(col: seq<string>, rules: seq<Rule>) returns (out: seq<string>)
    requires KeysNonEmpty(rules)
    ensures |out| == |col|
    ensures forall r :: 0 <= r < |col| ==> out[r] == ApplyReplacements(rules, col[r])
  {
    out := col;
    var j := 0;
    while j < |rules|
      invariant 0 <= j <= |rules|
      invariant |out| == |col|
      invariant forall r :: 0 <= r < |out| ==> out[r] == ApplyReplacements(rules[..j], col[r])
    {
      var rule := rules[j];
      out := seq(|out|, r requires 0 <= r < |out| => ReplaceAll(out[r], rule.key, rule.value));
      assert rules[..j + 1][..j] == rules[..j];
      j := j + 1;
    }
    assert rules[..j] == rules;
  }

  /** Every exception rule, in order, over the whole column: the rows whose
      current name contains the key take the canonical name. */
  method ExceptColumn(col: seq<string>, rules: seq<Rule>) returns (out: seq<string>)
    ensures |out| == |col|
    ensures forall r :: 0 <= r < |col| ==> out[r] == ApplyExceptions(rules, col[r])
  {
    out := col;
    var j := 0;
    while j < |rules|
      invariant 0 <= j <= |rules|
      invariant |out| == |col|
      invariant forall r :: 0 <= r < |out| ==> out[r] == ApplyExceptions(rules[..j], col[r])
    {
      var rule := rules[j];
      out := seq(|out|, r requires 0 <= r < |out| => if Contains(out[r], rule.key) then rule.value else out[r]);
      assert rules[..j + 1][..j] == rules[..j];
      j := j + 1;
    }
    assert rules[..j] == rules;
  }

  /** The normalizer applied to the `org_pol` column (lines 271-279). */
  method StandardizeColumn(orgPol: seq<string>) returns (pName: seq<string>)
    ensures |pName| == |orgPol|
    ensures forall r :: 0 <= r < |orgPol| ==> pName[r] == Standardize(orgPol[r])
  {
    TablesWellFormed();
    var cleaned := seq(|orgPol|, r requires 0 <= r < |orgPol| => Clean(Reple(orgPol[r])));
    var replaced := ReplaceColumn(cleaned, Replacements);
    pName := ExceptColumn(replaced, Exceptions);
  }
}
