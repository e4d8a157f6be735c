/** The naming policy: normalisation of declared names to snake_case, and the
    reserved-name and reserved-suffix checks (create_tables.py). */
module Naming {
  import opened Constants

  /** The characters the pattern [\.\ \-] splits at. */
  predicate IsSeparator(c: char) {
    c == '.' || c == ' ' || c == '-'
  }

  /** Case folding of one character; stands for str.lower() on ASCII letters. */
  function LowerChar(c: char): char {
    if 'A' <= c <= 'Z' then (c as int - 'A' as int + 'a' as int) as char else c
  }

  function Lower(s: string): string {
    seq(|s|, i requires 0 <= i < |s| => LowerChar(s[i]))
  }

  /** The fragments re.split(r"[\.\ \-]", s) returns: `s` cut at every separator,
      the separators dropped; empty fragments are kept, so there is always one more
      fragment than there are separators. */
  function Split(s: string): (frags: seq<string>)
    ensures |frags| >= 1
    ensures forall k, j :: 0 <= k < |frags| && 0 <= j < |frags[k]| ==> !IsSeparator(frags[k][j])
    decreases |s|
  {
    if s == [] then [[]]
    else
      var init := Split(s[..|s| - 1]);
      var c := s[|s| - 1];
      if IsSeparator(c) then init + [[]]
      else init[..|init| - 1] + [init[|init| - 1] + [c]]
  }

  /** The fragments joined with "_" in between. */
  function Joined(frags: seq<string>): string
    requires |frags| >= 1
  {
    if |frags| == 1 then frags[0] else Joined(frags[..|frags| - 1]) + "_" + frags[|frags| - 1]
  }

  /** What to_snake_case computes: every separator replaced by '_', every other
      character kept. */
  function Snake(s: string): (r: string)
    ensures |r| == |s|
    ensures forall i :: 0 <= i < |r| ==> !IsSeparator(r[i])
  {
    seq(|s|, i requires 0 <= i < |s| => if IsSeparator(s[i]) then '_' else s[i])
  }

  /** What to_lower_snake_case computes: every separator replaced by '_', every
      other character lower-cased. */
  function LowerSnake(s: string): (r: string)
    ensures |r| == |s|
    ensures forall i :: 0 <= i < |r| ==> !IsSeparator(r[i])
  {
    seq(|s|, i requires 0 <= i < |s| => if IsSeparator(s[i]) then '_' else LowerChar(s[i]))
  }

  /** Appending one character to the last fragment appends it to the joined string. */
  lemma {:induction false} JoinedExtendLast(frags: seq<string>, c: char)
    requires |frags| >= 1
    ensures Joined(frags[..|frags| - 1] + [frags[|frags| - 1] + [c]]) == Joined(frags) + [c]
  {
    var n := |frags|;
    var ext := frags[..n - 1] + [frags[n - 1] + [c]];
    if n > 1 {
      assert ext[..n - 1] == frags[..n - 1];
    }
  }

  /** A trailing empty fragment adds one "_" to the joined string. */
  lemma JoinedEmptyLast(frags: seq<string>)
    requires |frags| >= 1
    ensures Joined(frags + [[]]) == Joined(frags) + "_"
  {
    assert (frags + [[]])[..|frags|] == frags;
  }

  /** to_snake_case of a string grows by one character with the string. */
  lemma SnakeSnoc(s: string)
    requires s != []
    ensures Snake(s) == Snake(s[..|s| - 1]) + [if IsSeparator(s[|s| - 1]) then '_' else s[|s| - 1]]
  {
  }

  /** Splitting at the separators and joining with "_" replaces each separator by '_'. */
  lemma {:induction false} JoinedSplit(s: string)
    ensures Joined(Split(s)) == Snake(s)
    decreases |s|
  {
    if s != [] {
      var p := s[..|s| - 1];
      var c := s[|s| - 1];
      var init := Split(p);
      JoinedSplit(p);
      SnakeSnoc(s);
      if IsSeparator(c) {
        JoinedEmptyLast(init);
      } else {
        JoinedExtendLast(init, c);
      }
    }
  }

  lemma LowerConcat(a: string, b: string)
    ensures Lower(a + b) == Lower(a) + Lower(b)
  {
  }

  /** Lower-casing the joined fragments one fragment further. */
  lemma LowerJoinedSnoc(frags: seq<string>, i: nat)
    requires i < |frags|
    ensures i == 0 ==> Lower(Joined(frags[..i + 1])) == Lower(frags[i])
    ensures i > 0 ==> Lower(Joined(frags[..i + 1])) == Lower(Joined(frags[..i])) + "_" + Lower(frags[i])
  {
    assert frags[..i + 1][..i] == frags[..i];
    if i > 0 {
      LowerConcat(Joined(frags[..i]), "_");
      LowerConcat(Joined(frags[..i]) + "_", frags[i]);
    }
  }

  /** Lower-casing after replacing the separators is the lower snake case. */
  lemma LowerOfSnake(s: string)
    ensures Lower(Snake(s)) == LowerSnake(s)
  {
  }

  /** to_snake_case: each fragment followed by "_" is accumulated, then the trailing
      "_" is cut off. */
  method ToSnakeCase(target: string) returns (output: string)
    ensures output == Snake(target)
  {
    var stringFrags := Split(target);
    output := "";
    for i := 0 to |stringFrags|
      invariant output == if i == 0 then "" else Joined(stringFrags[..i]) + "_"
    {
      assert stringFrags[..i + 1][..i] == stringFrags[..i];
      output := output + stringFrags[i] + "_";
    }
    assert stringFrags[..|stringFrags|] == stringFrags;
    JoinedSplit(target);
    output := output[..|output| - 1];
  }

  /** to_lower_snake_case: as ToSnakeCase, each fragment lower-cased. */
  method ToLowerSnakeCase(target: string) returns (output: string)
    ensures output == LowerSnake(target)
  {
    var stringFrags := Split(target);
    output := "";
    for i := 0 to |stringFrags|
      invariant output == if i == 0 then "" else Lower(Joined(stringFrags[..i])) + "_"
    {
      LowerJoinedSnoc(stringFrags, i);
      output := output + Lower(stringFrags[i]) + "_";
    }
    assert stringFrags[..|stringFrags|] == stringFrags;
    JoinedSplit(target);
    LowerOfSnake(target);
    output := output[..|output| - 1];
  }

  /** Normalising an already normalised name changes nothing. */
  lemma {:induction false} LowerSnakeIdempotent(s: string)
    ensures LowerSnake(LowerSnake(s)) == LowerSnake(s)
  {
    var once := LowerSnake(s);
    forall i | 0 <= i < |s| ensures LowerSnake(once)[i] == once[i] {
      assert LowerChar(once[i]) == once[i];
    }
  }

  lemma {:induction false} SnakeIdempotent(s: string)
    ensures Snake(Snake(s)) == Snake(s)
  {
    var once := Snake(s);
    forall i | 0 <= i < |s| ensures Snake(once)[i] == once[i] {
    }
  }

  /** The documented examples: "hi I am Wywy" becomes "hi_I_am_Wywy" and
      "hi_i_am_wywy"; underscores already in a name are kept. */
  lemma DocumentedExamples()
    ensures Snake("hi I am Wywy") == "hi_I_am_Wywy"
    ensures LowerSnake("hi I am Wywy") == "hi_i_am_wywy"
    ensures LowerSnake("already_snake") == "already_snake"
    ensures LowerSnake("a.b c-d") == "a_b_c_d"
  {
  }

  /** validate_name: false exactly when `name` equals one of the reserved names. */
  method ValidateName(name: string, reservedNames: seq<string>) returns (valid: bool)
    ensures valid <==> name !in reservedNames
  {
    for i := 0 to |reservedNames|
      invariant name !in reservedNames[..i]
    {
      if name == reservedNames[i] {
        return false;
      }
    }
    assert reservedNames[..|reservedNames|] == reservedNames;
    return true;
  }

  /** The test validate_suffix applies for one suffix, as written: it cuts the last
      |suffix| + 1 characters off `name` and compares what is left (not what was cut
      off) with "_" + suffix. */
  predicate PrefixClash(name: string, suffix: string) {
    |name| >= |suffix| + 1 && name[..|name| - (|suffix| + 1)] == "_" + suffix
  }

  /** The test its documentation describes: `name` ends with "_" + suffix. */
  predicate EndsWithSuffix(name: string, suffix: string) {
    |name| >= |suffix| + 1 && name[|name| - (|suffix| + 1)..] == "_" + suffix
  }

  /** The names validate_suffix accepts. */
  predicate SuffixesAllowed(name: string, suffixes: seq<string>) {
    forall s :: s in suffixes ==> !PrefixClash(name, s)
  }

  /** validate_suffix, as written. */
  method ValidateSuffix(name: string, reservedSuffixes: seq<string>) returns (valid: bool)
    ensures valid <==> SuffixesAllowed(name, reservedSuffixes)
  {
    for i := 0 to |reservedSuffixes|
      invariant forall k :: 0 <= k < i ==> !PrefixClash(name, reservedSuffixes[k])
    {
      var suffixLen := |reservedSuffixes[i]| + 1;
      if |name| >= suffixLen && name[..|name| - suffixLen] == "_" + reservedSuffixes[i] {
        assert PrefixClash(name, reservedSuffixes[i]);
        return false;
      }
    }
    return true;
  }

  /** The check as written fires only on names exactly twice as long as "_" + suffix
      that START with "_" + suffix. */
  lemma {:induction false} PrefixClashShape(name: string, suffix: string)
    ensures PrefixClash(name, suffix) <==>
              |name| == 2 * (|suffix| + 1) && name[..|suffix| + 1] == "_" + suffix
  {
    if |name| == 2 * (|suffix| + 1) {
      assert |name| - (|suffix| + 1) == |suffix| + 1;
    }
  }

  /** Names shorter than "_" + suffix and the empty suffix list are always accepted. */
  lemma ShortNamesPass(name: string, suffixes: seq<string>)
    requires forall s :: s in suffixes ==> |name| < |s| + 1
    ensures SuffixesAllowed(name, suffixes)
  {
  }

  /** With the reserved table suffixes, every name whose length is not 10, 20, 22
      or 24 passes the check, whatever it ends with. */
  lemma {:induction false} TableSuffixCheckByLength(name: string)
    requires |name| !in {10, 20, 22, 24}
    ensures SuffixesAllowed(name, ReservedTableSuffixes)
  {
    forall s | s in ReservedTableSuffixes ensures !PrefixClash(name, s) {
      PrefixClashShape(name, s);
    }
  }

  /** The check and its documentation disagree both ways: "widgets_tags" ends with a
      reserved suffix yet passes, while "_tagswidge" does not end with one yet is
      rejected. */
  lemma {:induction false} SuffixCheckGap()
    ensures EndsWithSuffix("widgets_tags", "tags") && SuffixesAllowed("widgets_tags", ReservedTableSuffixes)
    ensures !EndsWithSuffix("_tagswidge", "tags") && !SuffixesAllowed("_tagswidge", ReservedTableSuffixes)
  {
    TableSuffixCheckByLength("widgets_tags");
    assert "widgets_tags"[7..] == "_tags";
    assert "_tagswidge"[..5] == "_tags";
    assert PrefixClash("_tagswidge", ReservedTableSuffixes[0]);
  }

  /** Every table name passes the reserved-name check, and "info" is the only
      database name that fails it. */
  lemma ReservedNameChecks(name: string)
    ensures name !in ReservedTableNames
    ensures name !in ReservedDatabaseNames <==> name != "info"
  {
  }
}
