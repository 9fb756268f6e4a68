/**
 * The Japanese text utilities of the client (src/utils/japanese.js): the kanji
 * test, the romaji spacer and the reading conversion with its local fallback.
 * The two converter libraries and the HTTP call are parameters.
 */
module Japanese {
  import opened Wrappers
  import opened Text

  // ---------------------------------------------------------------------------
  // hasKanji

  /** CJK Unified Ideographs (U+4E00 to U+9FAF) and Extension A (U+3400 to U+4DBF). */
  predicate IsKanji(c: char) {
    ('\U{4E00}' <= c <= '\U{9FAF}') || ('\U{3400}' <= c <= '\U{4DBF}')
  }

  /** The regular-expression test `/[一-龯㐀-䶿]/.test(text)`. */
  function HasKanji(text: string): (r: bool)
    ensures r <==> exists i :: 0 <= i < |text| && IsKanji(text[i])
  {
    if text == [] then false
    else if IsKanji(text[0]) then (assert IsKanji(text[0]); true)
    else
      var rest := HasKanji(text[1..]);
      assert forall i :: 1 <= i < |text| ==> text[i] == text[1..][i - 1];
      rest
  }

  /** Trimming never adds or removes a kanji: whitespace is not kanji. */
  lemma KanjiSurvivesTrim(s: string)
    ensures HasKanji(Trim(s)) == HasKanji(s)
  {
    TrimSpec(s);
    var a := |s| - |TrimStart(s)|;
    var r := Trim(s);
    if HasKanji(s) {
      var i :| 0 <= i < |s| && IsKanji(s[i]);
      assert !IsSpace(s[i]) by {
        assert !Contains(WHITESPACE, s[i]) by { ContainsIff(WHITESPACE, s[i]); }
      }
      NonSpaceInsideTrim(s, i);
      assert IsKanji(r[i - a]);
    }
    if HasKanji(r) {
      var j :| 0 <= j < |r| && IsKanji(r[j]);
      assert s[a + j] == r[j];
    }
  }

  // ---------------------------------------------------------------------------
  // addSpacesToRomaji: the letter classes of its regular expressions

  /** ASCII lower-casing; the `i` flag (without `u`) folds case on ASCII letters only here. */
  function Lower(c: char): char {
    if 'A' <= c <= 'Z' then (c as int + 32) as char else c
  }

  /** `[aeiou]` under the `i` flag. */
  predicate IsVowel(c: char) {
    var l := Lower(c);
    l == 'a' || l == 'e' || l == 'i' || l == 'o' || l == 'u'
  }

  /** `[bcdfghjklmnpqrstvwxyz]` under the `i` flag. */
  predicate IsConsonant(c: char) {
    var l := Lower(c);
    'b' <= l <= 'z' && l != 'e' && l != 'i' && l != 'o' && l != 'u'
  }

  /** The alternatives of the first pass's first group, in the order they are written. */
  const CLUSTERS: seq<string> := ["tsu", "chu"] + SH_CLUSTERS + Y_CLUSTERS

  const SH_CLUSTERS: seq<string> := ["shu", "sha", "sho", "shi", "she"]

  const Y_CLUSTERS: seq<string> :=
    ["kya", "kyu", "kyo"] + ["gya", "gyu", "gyo"] + ["nya", "nyu", "nyo"] + ["hya", "hyu", "hyo"]
    + ["bya", "byu", "byo"] + ["pya", "pyu", "pyo"] + ["mya", "myu", "myo"] + ["rya", "ryu", "ryo"]

  /** A three-letter syllable of the first pass, compared without regard to case. */
  predicate IsCluster(a: char, b: char, c: char) {
    Listed(CLUSTERS, [Lower(a), Lower(b), Lower(c)])
  }

  /** Membership in a list of words, one alternative after the other. */
  predicate Listed(words: seq<string>, w: string) {
    words != [] && (words[0] == w || Listed(words[1..], w))
  }

  lemma {:induction false} ListedIff(words: seq<string>, w: string)
    ensures Listed(words, w) <==> w in words
  {
    if words != [] {
      ListedIff(words[1..], w);
      assert words == [words[0]] + words[1..];
    }
  }

  /**
   * The alternatives grouped by letter: "tsu", "chu", the "sh" syllables,
   * and a "y" syllable after one of k, g, n, h, b, p, m, r.
   */
  predicate ClusterShape(x: char, y: char, z: char) {
    || (x == 't' && y == 's' && z == 'u')
    || (x == 'c' && y == 'h' && z == 'u')
    || (x == 's' && y == 'h' && (z == 'u' || z == 'a' || z == 'o' || z == 'i' || z == 'e'))
    || (y == 'y' && (x == 'k' || x == 'g' || x == 'n' || x == 'h' || x == 'b' || x == 'p' || x == 'm' || x == 'r')
        && (z == 'a' || z == 'u' || z == 'o'))
  }

  /** Every listed alternative has the shape of its group. */
  lemma ListedHasShape(x: char, y: char, z: char)
    requires [x, y, z] in CLUSTERS
    ensures ClusterShape(x, y, z)
  {
    var w := [x, y, z];
    if w in SH_CLUSTERS {
      var k :| 0 <= k < |SH_CLUSTERS| && SH_CLUSTERS[k] == w;
      assert x == SH_CLUSTERS[k][0] && y == SH_CLUSTERS[k][1] && z == SH_CLUSTERS[k][2];
    } else if w in Y_CLUSTERS {
      YListedHasShape(x, y, z);
    } else {
      assert w in ["tsu", "chu"];
    }
  }

  lemma YListedHasShape(x: char, y: char, z: char)
    requires [x, y, z] in Y_CLUSTERS
    ensures ClusterShape(x, y, z)
  {
    var w := [x, y, z];
    var k :| 0 <= k < |Y_CLUSTERS| && Y_CLUSTERS[k] == w;
    assert x == Y_CLUSTERS[k][0] && y == Y_CLUSTERS[k][1] && z == Y_CLUSTERS[k][2];
  }

  /** Every shape of a group is listed. */
  lemma ShapeIsListed(x: char, y: char, z: char)
    requires ClusterShape(x, y, z)
    ensures [x, y, z] in CLUSTERS
  {
    var w := [x, y, z];
    if y == 'y' {
      assert w == [x, 'y', z];
    }
  }

  /** The list of alternatives is exactly the grouping by letter. */
  lemma ClusterListed(x: char, y: char, z: char)
    ensures ClusterShape(x, y, z) <==> [x, y, z] in CLUSTERS
  {
    if [x, y, z] in CLUSTERS {
      ListedHasShape(x, y, z);
    }
    if ClusterShape(x, y, z) {
      ShapeIsListed(x, y, z);
    }
  }

  lemma ClusterIff(a: char, b: char, c: char)
    ensures IsCluster(a, b, c) <==> ClusterShape(Lower(a), Lower(b), Lower(c))
  {
    ListedIff(CLUSTERS, [Lower(a), Lower(b), Lower(c)]);
    ClusterListed(Lower(a), Lower(b), Lower(c));
  }

  /** One global pass of `replace(pattern, "$1 $2")` of the spacer. */
  datatype Pass =
    | ClusterPass   // (tsu|chu|...|ryo)([consonant])
    | VowelPass     // ([aeiou])([consonant][aeiou])
    | NasalPass     // (n)([consonant][aeiou])

  /** Length of the pass's match at the very start of `s`, or 0 when it does not match there. */
  function MatchLength(pass: Pass, s: string): (n: nat)
    ensures n == 0 || (GroupOneLength(pass) < n <= |s|)
  {
    match pass
    case ClusterPass =>
      if |s| >= 4 && IsCluster(s[0], s[1], s[2]) && IsConsonant(s[3]) then 4 else 0
    case VowelPass =>
      if |s| >= 3 && IsVowel(s[0]) && IsConsonant(s[1]) && IsVowel(s[2]) then 3 else 0
    case NasalPass =>
      if |s| >= 3 && Lower(s[0]) == 'n' && IsConsonant(s[1]) && IsVowel(s[2]) then 3 else 0
  }

  /** Length of the first group `$1`, after which the space goes. */
  function GroupOneLength(pass: Pass): nat {
    if pass == ClusterPass then 3 else 1
  }

  /**
   * A global replace: scanning left to right, each match becomes `$1 $2`
   * and the scan resumes after it; a position without a match is copied.
   */
  function ReplaceAll(pass: Pass, s: string): string
    decreases |s|
  {
    if s == [] then []
    else
      var n := MatchLength(pass, s);
      if n > 0 then
        var g := GroupOneLength(pass);
        s[..g] + " " + s[g..n] + ReplaceAll(pass, s[n..])
      else [s[0]] + ReplaceAll(pass, s[1..])
  }

  /** `replace(/\s+/g, " ")`: every run of whitespace becomes one space. */
  function CollapseSpaces(s: string): string
    decreases |s|
  {
    if s == [] then []
    else if IsSpace(s[0]) then " " + CollapseSpaces(TrimStart(s[1..]))
    else [s[0]] + CollapseSpaces(s[1..])
  }

  /**
   * `addSpacesToRomaji`: "" for blank input, the input itself when it already
   * holds a space, otherwise the four passes (the vowel pass runs twice),
   * whitespace collapsing and trimming.
   */
  function AddSpacesToRomaji(romaji: string): string {
    if Blank(romaji) then ""
    else if ' ' in romaji then romaji
    else
      var afterClusters := ReplaceAll(ClusterPass, romaji);
      var afterVowels := ReplaceAll(VowelPass, afterClusters);
      var afterNasals := ReplaceAll(NasalPass, afterVowels);
      var afterVowelsAgain := ReplaceAll(VowelPass, afterNasals);
      Trim(CollapseSpaces(afterVowelsAgain))
  }

  // ---------------------------------------------------------------------------
  // What the passes do to a string: they only insert spaces

  /** `r` is `t` with zero or more spaces inserted. */
  predicate SpacesInserted(t: string, r: string)
    decreases |r|
  {
    if r == [] then t == []
    else
      (t != [] && r[0] == t[0] && SpacesInserted(t[1..], r[1..]))
      || (r[0] == ' ' && SpacesInserted(t, r[1..]))
  }

  lemma {:induction false} SpacesInsertedAfterPrefix(p: string, t: string, r: string)
    requires SpacesInserted(t, r)
    ensures SpacesInserted(p + t, p + r)
  {
    if p != [] {
      SpacesInsertedAfterPrefix(p[1..], t, r);
      assert (p + t)[1..] == p[1..] + t;
      assert (p + r)[1..] == p[1..] + r;
      assert (p + r)[0] == (p + t)[0];
    } else {
      assert p + t == t && p + r == r;
    }
  }

  /** One match of a pass puts a space between its two groups. */
  lemma SpaceBetweenGroups(head: string, mid: string, t: string, r: string)
    requires SpacesInserted(t, r)
    ensures SpacesInserted(head + mid + t, head + " " + mid + r)
  {
    SpacesInsertedAfterPrefix(mid, t, r);
    var x := mid + r;
    assert (" " + x)[0] == ' ' && (" " + x)[1..] == x;
    assert SpacesInserted(mid + t, " " + x);
    SpacesInsertedAfterPrefix(head, mid + t, " " + x);
    assert head + mid + t == head + (mid + t);
    assert head + " " + mid + r == head + (" " + x);
  }

  /** Every pass of the spacer only inserts spaces into its input. */
  lemma {:induction false} ReplaceAllInsertsSpaces(pass: Pass, s: string)
    ensures SpacesInserted(s, ReplaceAll(pass, s))
    decreases |s|
  {
    if s != [] {
      var n := MatchLength(pass, s);
      if n > 0 {
        var g := GroupOneLength(pass);
        ReplaceAllInsertsSpaces(pass, s[n..]);
        SpaceBetweenGroups(s[..g], s[g..n], s[n..], ReplaceAll(pass, s[n..]));
        assert s[..g] + s[g..n] + s[n..] == s;
      } else {
        ReplaceAllInsertsSpaces(pass, s[1..]);
        SpacesInsertedAfterPrefix([s[0]], s[1..], ReplaceAll(pass, s[1..]));
        assert [s[0]] + s[1..] == s;
      }
    }
  }

  lemma {:induction false} SpacesInsertedDropSpaces(t: string, r: string)
    requires SpacesInserted(t, r)
    ensures DropSpaces(r) == DropSpaces(t)
  {
    if r != [] {
      if t != [] && r[0] == t[0] && SpacesInserted(t[1..], r[1..]) {
        SpacesInsertedDropSpaces(t[1..], r[1..]);
      } else {
        SpacesInsertedDropSpaces(t, r[1..]);
        assert IsSpace(r[0]);
      }
    }
  }

  /** Up to the first inserted or original space, `r` and `t` agree. */
  lemma {:induction false} SpacesInsertedPrefix(t: string, r: string, k: nat)
    requires SpacesInserted(t, r) && k <= |r|
    requires forall j :: 0 <= j < k ==> r[j] != ' '
    ensures k <= |t| && r[..k] == t[..k]
    ensures forall j :: 0 <= j < k ==> r[j] == t[j]
  {
    if k > 0 {
      SpacesInsertedPrefix(t[1..], r[1..], k - 1);
      assert r[..k] == [r[0]] + r[1..][..k - 1];
      assert t[..k] == [t[0]] + t[1..][..k - 1];
    }
  }

  /** A pass leaves the first character where it was. */
  lemma ReplaceAllHead(pass: Pass, s: string)
    requires s != []
    ensures ReplaceAll(pass, s) != [] && ReplaceAll(pass, s)[0] == s[0]
  {
  }

  /** After the vowel pass, the second character is the input's second one or the inserted space. */
  lemma VowelPassSecond(s: string)
    requires |s| >= 2
    ensures |ReplaceAll(VowelPass, s)| >= 2
    ensures ReplaceAll(VowelPass, s)[1] == ' ' || ReplaceAll(VowelPass, s)[1] == s[1]
  {
    if MatchLength(VowelPass, s) == 0 {
      ReplaceAllHead(VowelPass, s[1..]);
    }
  }

  // ---------------------------------------------------------------------------
  // Syllable boundaries: a vowel directly followed by a consonant and a vowel

  predicate Unsplit(a: char, b: char, c: char) {
    IsVowel(a) && IsConsonant(b) && IsVowel(c)
  }

  /** The vowel at `i` is directly followed by a consonant and a vowel. */
  predicate UnsplitAt(s: string, i: int)
    requires 0 <= i <= |s| - 3
  {
    Unsplit(s[i], s[i + 1], s[i + 2])
  }

  /** Two such boundaries overlap on the vowel at `i + 2` (vowel, consonant, vowel, consonant, vowel). */
  predicate DoubleAt(s: string, i: int)
    requires 0 <= i <= |s| - 5
  {
    UnsplitAt(s, i) && UnsplitAt(s, i + 2)
  }

  /** No vowel of `s` is directly followed by a consonant and a vowel. */
  predicate NoUnsplit(s: string) {
    forall i :: 0 <= i <= |s| - 3 ==> !UnsplitAt(s, i)
  }

  predicate NoDoubleUnsplit(s: string) {
    forall i :: 0 <= i <= |s| - 5 ==> !DoubleAt(s, i)
  }

  /** Every unsplit vowel is one a match has already consumed: two places back is an inserted space. */
  predicate Guarded(s: string) {
    forall i {:trigger UnsplitAt(s, i)} :: 0 <= i <= |s| - 3 && UnsplitAt(s, i) ==> 2 <= i && s[i - 2] == ' '
  }

  lemma UnsplitShift(p: string, q: string, i: int)
    requires |p| <= i <= |p| + |q| - 3
    ensures UnsplitAt(p + q, i) == UnsplitAt(q, i - |p|)
  {
    assert (p + q)[i] == q[i - |p|] && (p + q)[i + 1] == q[i - |p| + 1] && (p + q)[i + 2] == q[i - |p| + 2];
  }

  lemma DoubleShift(p: string, q: string, i: int)
    requires |p| <= i <= |p| + |q| - 5
    ensures DoubleAt(p + q, i) == DoubleAt(q, i - |p|)
  {
    UnsplitShift(p, q, i);
    UnsplitShift(p, q, i + 2);
  }

  /** The vowel pass leaves an unsplit vowel only right after a boundary it split. */
  lemma {:induction false} VowelPassGuarded(s: string)
    ensures Guarded(ReplaceAll(VowelPass, s))
  {
    if s != [] {
      if MatchLength(VowelPass, s) > 0 {
        VowelPassGuarded(s[3..]);
        VowelPassGuardedMatch(s);
      } else {
        VowelPassGuarded(s[1..]);
        VowelPassGuardedCopy(s);
      }
    }
  }

  lemma VowelPassGuardedMatch(s: string)
    requires s != [] && MatchLength(VowelPass, s) > 0
    requires Guarded(ReplaceAll(VowelPass, s[3..]))
    ensures Guarded(ReplaceAll(VowelPass, s))
  {
    var pre := [s[0], ' ', s[1], s[2]];
    assert s[..1] + " " + s[1..3] == pre;
    assert ReplaceAll(VowelPass, s) == pre + ReplaceAll(VowelPass, s[3..]);
    GuardedAfterSpace(s[0], s[1], s[2], ReplaceAll(VowelPass, s[3..]));
  }

  /** Putting a split group in front keeps every unsplit vowel guarded. */
  lemma GuardedAfterSpace(a: char, b: char, c: char, rest: string)
    requires !IsVowel(b) && Guarded(rest)
    ensures Guarded([a, ' ', b, c] + rest)
  {
    var pre := [a, ' ', b, c];
    var r := pre + rest;
    assert r[1] == ' ' && r[2] == b;
    forall i | 0 <= i <= |r| - 3 && UnsplitAt(r, i)
      ensures 2 <= i && r[i - 2] == ' '
    {
      if i >= 4 {
        UnsplitShift(pre, rest, i);
        assert UnsplitAt(rest, i - 4);
        assert r[i - 2] == rest[i - 6];
      }
    }
  }

  lemma VowelPassGuardedCopy(s: string)
    requires s != [] && MatchLength(VowelPass, s) == 0
    requires Guarded(ReplaceAll(VowelPass, s[1..]))
    ensures Guarded(ReplaceAll(VowelPass, s))
  {
    var rest := ReplaceAll(VowelPass, s[1..]);
    if |rest| >= 2 {
      ReplaceAllHead(VowelPass, s[1..]);
      VowelPassSecond(s[1..]);
    }
    GuardedCons(s[0], rest);
  }

  /** Putting a character in front keeps every unsplit vowel guarded when it starts no boundary itself. */
  lemma GuardedCons(x: char, rest: string)
    requires Guarded(rest)
    requires |rest| >= 2 ==> !Unsplit(x, rest[0], rest[1])
    ensures Guarded([x] + rest)
  {
    var r := [x] + rest;
    forall i | 0 <= i <= |r| - 3 && UnsplitAt(r, i)
      ensures 2 <= i && r[i - 2] == ' '
    {
      if i >= 1 {
        UnsplitShift([x], rest, i);
        assert r[i - 2] == rest[i - 3];
      }
    }
  }

  lemma GuardedNoDouble(s: string)
    requires Guarded(s)
    ensures NoDoubleUnsplit(s)
  {
    forall i | 0 <= i <= |s| - 5
      ensures !DoubleAt(s, i)
    {
      if UnsplitAt(s, i + 2) {
        assert s[i] == ' ';
      }
    }
  }

  /** Inserting spaces cannot create a double boundary. */
  lemma {:induction false} SpacesInsertedNoDouble(t: string, r: string)
    requires SpacesInserted(t, r) && NoDoubleUnsplit(t)
    ensures NoDoubleUnsplit(r)
  {
    if r != [] {
      if |r| >= 5 && DoubleAt(r, 0) {
        SpacesInsertedPrefix(t, r, 5);
        assert DoubleAt(t, 0);
      }
      var tail: string;
      if t != [] && r[0] == t[0] && SpacesInserted(t[1..], r[1..]) {
        tail := t[1..];
        assert t == [t[0]] + tail;
        forall i | 0 <= i <= |tail| - 5 ensures !DoubleAt(tail, i) {
          DoubleShift([t[0]], tail, i + 1);
        }
      } else {
        tail := t;
      }
      SpacesInsertedNoDouble(tail, r[1..]);
      assert r == [r[0]] + r[1..];
      forall i | 1 <= i <= |r| - 5 ensures !DoubleAt(r, i) {
        DoubleShift([r[0]], r[1..], i);
      }
    }
  }

  /** A string too short for any match passes through unchanged. */
  lemma ReplaceAllShort(pass: Pass, s: string)
    requires |s| < 3
    ensures ReplaceAll(pass, s) == s
  {
    if s != [] {
      assert MatchLength(pass, s) == 0;
      if |s| == 2 {
        assert MatchLength(pass, s[1..]) == 0;
        assert s[1..][1..] == [];
      }
    }
  }

  /** Removing a prefix keeps a string free of double boundaries. */
  lemma NoDoubleSuffix(p: string, q: string)
    requires NoDoubleUnsplit(p + q)
    ensures NoDoubleUnsplit(q)
  {
    forall i | 0 <= i <= |q| - 5 ensures !DoubleAt(q, i) {
      DoubleShift(p, q, i + |p|);
    }
  }

  /** The vowel pass step that splits the boundary at the head. */
  lemma VowelPassSplitsMatch(t: string)
    requires NoDoubleUnsplit(t) && t != [] && MatchLength(VowelPass, t) > 0
    requires NoUnsplit(ReplaceAll(VowelPass, t[3..]))
    ensures NoUnsplit(ReplaceAll(VowelPass, t))
  {
    var r := ReplaceAll(VowelPass, t);
    var rest := ReplaceAll(VowelPass, t[3..]);
    var pre := [t[0], ' ', t[1], t[2]];
    assert r == pre + rest;
    if |t| >= 5 {
      ReplaceAllHead(VowelPass, t[3..]);
      VowelPassSecond(t[3..]);
      assert !DoubleAt(t, 0);
      assert r[4] == rest[0] && r[5] == rest[1];
      assert !UnsplitAt(r, 3);
    } else {
      ReplaceAllShort(VowelPass, t[3..]);
    }
    forall i | 0 <= i <= |r| - 3 ensures !UnsplitAt(r, i) {
      if i >= 4 {
        UnsplitShift(pre, rest, i);
      }
    }
  }

  /** The vowel pass step that copies the head character. */
  lemma VowelPassSplitsCopy(t: string)
    requires t != [] && MatchLength(VowelPass, t) == 0
    requires NoUnsplit(ReplaceAll(VowelPass, t[1..]))
    ensures NoUnsplit(ReplaceAll(VowelPass, t))
  {
    var r := ReplaceAll(VowelPass, t);
    var rest := ReplaceAll(VowelPass, t[1..]);
    assert r == [t[0]] + rest;
    if |t| >= 3 {
      ReplaceAllHead(VowelPass, t[1..]);
      VowelPassSecond(t[1..]);
      assert !UnsplitAt(r, 0);
    } else {
      ReplaceAllShort(VowelPass, t[1..]);
    }
    forall i | 0 <= i <= |r| - 3 ensures !UnsplitAt(r, i) {
      if i >= 1 {
        UnsplitShift([t[0]], rest, i);
      }
    }
  }

  /** After one vowel pass over a string without double boundaries, no boundary is left unsplit. */
  lemma {:induction false} VowelPassSplits(t: string)
    requires NoDoubleUnsplit(t)
    ensures NoUnsplit(ReplaceAll(VowelPass, t))
  {
    if t != [] {
      if MatchLength(VowelPass, t) > 0 {
        assert t == t[..3] + t[3..];
        NoDoubleSuffix(t[..3], t[3..]);
        VowelPassSplits(t[3..]);
        VowelPassSplitsMatch(t);
      } else {
        assert t == [t[0]] + t[1..];
        NoDoubleSuffix([t[0]], t[1..]);
        VowelPassSplits(t[1..]);
        VowelPassSplitsCopy(t);
      }
    }
  }

  /** Any piece of a string without unsplit boundaries has none either. */
  lemma SliceNoUnsplit(s: string, a: nat, b: nat)
    requires NoUnsplit(s) && a <= b <= |s|
    ensures NoUnsplit(s[a..b])
  {
    forall i | 0 <= i <= b - a - 3 ensures !UnsplitAt(s[a..b], i) {
      assert !UnsplitAt(s, a + i);
      assert s[a..b][i] == s[a + i] && s[a..b][i + 1] == s[a + i + 1] && s[a..b][i + 2] == s[a + i + 2];
    }
  }

  // ---------------------------------------------------------------------------
  // Collapsing whitespace

  lemma CollapseHead(s: string)
    requires s != []
    ensures CollapseSpaces(s) != []
    ensures CollapseSpaces(s)[0] == if IsSpace(s[0]) then ' ' else s[0]
  {
  }

  lemma SpaceIsSpace()
    ensures IsSpace(' ')
  {
  }

  /** Collapsing whitespace only replaces whitespace runs: the other characters stay, in order. */
  lemma {:induction false} CollapseKeepsNonSpace(s: string)
    ensures DropSpaces(CollapseSpaces(s)) == DropSpaces(s)
    decreases |s|
  {
    if s != [] {
      if IsSpace(s[0]) {
        var u := TrimStart(s[1..]);
        CollapseKeepsNonSpace(u);
        TrimStartKeepsNonSpace(s[1..]);
        SpaceIsSpace();
        assert (" " + CollapseSpaces(u))[1..] == CollapseSpaces(u);
      } else {
        CollapseKeepsNonSpace(s[1..]);
        assert ([s[0]] + CollapseSpaces(s[1..]))[1..] == CollapseSpaces(s[1..]);
      }
    }
  }

  /** Collapsing whitespace creates no unsplit boundary. */
  lemma {:induction false} CollapseNoUnsplit(s: string)
    requires NoUnsplit(s)
    ensures NoUnsplit(CollapseSpaces(s))
    decreases |s|
  {
    if s != [] {
      var r := CollapseSpaces(s);
      if IsSpace(s[0]) {
        var u := TrimStart(s[1..]);
        TrimStartSpec(s[1..]);
        SliceNoUnsplit(s, |s| - |u|, |s|);
        assert s[|s| - |u|..|s|] == s[1..][|s[1..]| - |u|..] == u;
        CollapseNoUnsplit(u);
        assert r == " " + CollapseSpaces(u);
        forall i | 0 <= i <= |r| - 3 ensures !UnsplitAt(r, i) {
          if i >= 1 {
            UnsplitShift(" ", CollapseSpaces(u), i);
          }
        }
      } else {
        var c := CollapseSpaces(s[1..]);
        SliceNoUnsplit(s, 1, |s|);
        assert s[1..|s|] == s[1..];
        CollapseNoUnsplit(s[1..]);
        assert r == [s[0]] + c;
        if |r| >= 3 {
          CollapseHead(s[1..]);
          if !IsSpace(s[1]) {
            assert c == [s[1]] + CollapseSpaces(s[2..]);
            CollapseHead(s[2..]);
            assert !UnsplitAt(s, 0);
          }
          assert !UnsplitAt(r, 0);
        }
        forall i | 0 <= i <= |r| - 3 ensures !UnsplitAt(r, i) {
          if i >= 1 {
            UnsplitShift([s[0]], c, i);
          }
        }
      }
    }
  }

  /** Whitespace is written as single spaces: every whitespace character is a space and none is next to another. */
  predicate SingleSpaced(s: string) {
    && (forall i :: 0 <= i < |s| && IsSpace(s[i]) ==> s[i] == ' ')
    && (forall i :: 0 <= i < |s| - 1 ==> !(IsSpace(s[i]) && IsSpace(s[i + 1])))
  }

  /** Single-spaced and with neither leading nor trailing whitespace. */
  predicate Tidy(s: string) {
    SingleSpaced(s) && (s != [] ==> !IsSpace(s[0]) && !IsSpace(s[|s| - 1]))
  }

  lemma {:induction false} CollapseSingleSpaced(s: string)
    ensures SingleSpaced(CollapseSpaces(s))
    decreases |s|
  {
    if s != [] {
      var r := CollapseSpaces(s);
      if IsSpace(s[0]) {
        var u := TrimStart(s[1..]);
        TrimStartSpec(s[1..]);
        CollapseSingleSpaced(u);
        if u != [] {
          CollapseHead(u);
        }
        assert r == " " + CollapseSpaces(u);
        forall i | 1 <= i < |r| ensures r[i] == CollapseSpaces(u)[i - 1] { }
      } else {
        CollapseSingleSpaced(s[1..]);
        assert r == [s[0]] + CollapseSpaces(s[1..]);
        forall i | 1 <= i < |r| ensures r[i] == CollapseSpaces(s[1..])[i - 1] { }
      }
    }
  }

  lemma TrimTidy(s: string)
    requires SingleSpaced(s)
    ensures Tidy(Trim(s))
  {
    TrimSpec(s);
    var r := Trim(s);
    var a := |s| - |TrimStart(s)|;
    forall i | 0 <= i < |r| ensures r[i] == s[a + i] { }
  }

  lemma TrimNoUnsplit(s: string)
    requires NoUnsplit(s)
    ensures NoUnsplit(Trim(s))
  {
    TrimSpec(s);
    var a := |s| - |TrimStart(s)|;
    SliceNoUnsplit(s, a, a + |Trim(s)|);
  }

  // ---------------------------------------------------------------------------
  // Where the spaces go

  /** A character a syllable ends with: a vowel, or the syllabic `n`. */
  predicate SyllableEnd(c: char) {
    IsVowel(c) || Lower(c) == 'n'
  }

  /**
   * Every whitespace character of `s` is a space followed by a consonant and,
   * unless it comes first, preceded by the end of a syllable.
   */
  predicate SpacedAtBreaks(s: string) {
    forall k :: 0 <= k < |s| && IsSpace(s[k]) ==>
      && s[k] == ' ' && k + 1 < |s| && IsConsonant(s[k + 1])
      && (k == 0 || SyllableEnd(s[k - 1]))
  }

  lemma LowerLetterNotSpace(c: char)
    requires 'a' <= Lower(c) <= 'z'
    ensures !IsSpace(c)
  {
    LetterNotSpace(c);
  }

  lemma SpacedAtBreaksSuffix(s: string, m: nat)
    requires SpacedAtBreaks(s) && m <= |s|
    ensures SpacedAtBreaks(s[m..])
  {
    var t := s[m..];
    forall k | 0 <= k < |t| && IsSpace(t[k])
      ensures t[k] == ' ' && k + 1 < |t| && IsConsonant(t[k + 1]) && (k == 0 || SyllableEnd(t[k - 1]))
    {
      assert t[k] == s[m + k];
      if k + 1 < |t| {
        assert t[k + 1] == s[m + k + 1];
      }
      if k > 0 {
        assert t[k - 1] == s[m + k - 1];
      }
    }
  }

  /** A match is made of letters; its first group ends a syllable and its second starts with a consonant. */
  lemma MatchGroups(pass: Pass, s: string)
    requires MatchLength(pass, s) > 0
    ensures var g := GroupOneLength(pass);
      var head := s[..g];
      var mid := s[g..MatchLength(pass, s)];
      && head != [] && mid != [] && SyllableEnd(head[|head| - 1]) && IsConsonant(mid[0])
      && (forall i :: 0 <= i < |head| ==> !IsSpace(head[i]))
      && (forall i :: 0 <= i < |mid| ==> !IsSpace(mid[i]))
  {
    var n := MatchLength(pass, s);
    if pass == ClusterPass {
      ClusterIff(s[0], s[1], s[2]);
      LowerLetterNotSpace(s[0]);
      LowerLetterNotSpace(s[1]);
    }
    forall i | 0 <= i < n ensures !IsSpace(s[i]) {
      LowerLetterNotSpace(s[i]);
    }
  }

  /** Putting a matched `$1 $2` in front keeps the spaces at syllable breaks. */
  lemma BreaksAfterMatch(head: string, mid: string, rest: string)
    requires head != [] && mid != [] && SyllableEnd(head[|head| - 1]) && IsConsonant(mid[0])
    requires forall i :: 0 <= i < |head| ==> !IsSpace(head[i])
    requires forall i :: 0 <= i < |mid| ==> !IsSpace(mid[i])
    requires SpacedAtBreaks(rest)
    requires rest != [] && IsSpace(rest[0]) ==> SyllableEnd(mid[|mid| - 1])
    ensures SpacedAtBreaks(head + " " + mid + rest)
  {
    var r := head + " " + mid + rest;
    var b := |head| + 1 + |mid|;
    forall k | 0 <= k < |r| && IsSpace(r[k])
      ensures r[k] == ' ' && k + 1 < |r| && IsConsonant(r[k + 1]) && (k == 0 || SyllableEnd(r[k - 1]))
    {
      if k == |head| {
        assert r[k + 1] == mid[0] && r[k - 1] == head[|head| - 1];
      } else if k >= b {
        var j := k - b;
        assert r[k] == rest[j];
        if j + 1 < |rest| {
          assert r[k + 1] == rest[j + 1];
        }
        if j == 0 {
          assert r[k - 1] == mid[|mid| - 1];
        } else {
          assert r[k - 1] == rest[j - 1];
        }
      }
    }
  }

  /** Putting a copied character in front keeps the spaces at syllable breaks. */
  lemma BreaksAfterCopy(x: char, rest: string)
    requires SpacedAtBreaks(rest)
    requires IsSpace(x) ==> x == ' ' && rest != [] && IsConsonant(rest[0])
    requires rest != [] && IsSpace(rest[0]) ==> SyllableEnd(x)
    ensures SpacedAtBreaks([x] + rest)
  {
    var r := [x] + rest;
    forall k | 0 <= k < |r| && IsSpace(r[k])
      ensures r[k] == ' ' && k + 1 < |r| && IsConsonant(r[k + 1]) && (k == 0 || SyllableEnd(r[k - 1]))
    {
      if k > 0 {
        assert r[k] == rest[k - 1];
        if k < |rest| {
          assert r[k + 1] == rest[k];
        }
        if k > 1 {
          assert r[k - 1] == rest[k - 2];
        }
      }
    }
  }

  /** Every pass puts its spaces at syllable breaks and keeps the ones already there. */
  lemma {:induction false} ReplaceAllSpacedAtBreaks(pass: Pass, s: string)
    requires SpacedAtBreaks(s)
    ensures SpacedAtBreaks(ReplaceAll(pass, s))
    decreases |s|
  {
    if s != [] {
      var n := MatchLength(pass, s);
      if n > 0 {
        SpacedAtBreaksSuffix(s, n);
        ReplaceAllSpacedAtBreaks(pass, s[n..]);
        BreakAfterMatch(pass, s);
        BreaksAtMatch(pass, s);
      } else {
        SpacedAtBreaksSuffix(s, 1);
        ReplaceAllSpacedAtBreaks(pass, s[1..]);
        BreaksAtCopy(pass, s);
      }
    }
  }

  /** The character after a match, when it is whitespace, follows a syllable end. */
  lemma BreakAfterMatch(pass: Pass, s: string)
    requires SpacedAtBreaks(s) && MatchLength(pass, s) > 0
    ensures var n := MatchLength(pass, s);
      n < |s| && IsSpace(s[n]) ==> SyllableEnd(s[n - 1])
  {
  }

  /** The rest of the pass starts with the character after the match. */
  lemma MatchTail(pass: Pass, s: string)
    requires MatchLength(pass, s) > 0
    requires var n := MatchLength(pass, s);
      n < |s| && IsSpace(s[n]) ==> SyllableEnd(s[n - 1])
    ensures var n := MatchLength(pass, s);
      var g := GroupOneLength(pass);
      var rest := ReplaceAll(pass, s[n..]);
      rest != [] && IsSpace(rest[0]) ==> SyllableEnd(s[g..n][|s[g..n]| - 1])
  {
    var n := MatchLength(pass, s);
    var g := GroupOneLength(pass);
    if n < |s| {
      ReplaceAllHead(pass, s[n..]);
      assert s[n..][0] == s[n];
      assert s[g..n][|s[g..n]| - 1] == s[n - 1];
    } else {
      assert s[n..] == [];
    }
  }

  lemma BreaksAtMatch(pass: Pass, s: string)
    requires MatchLength(pass, s) > 0
    requires var n := MatchLength(pass, s);
      n < |s| && IsSpace(s[n]) ==> SyllableEnd(s[n - 1])
    requires SpacedAtBreaks(ReplaceAll(pass, s[MatchLength(pass, s)..]))
    ensures SpacedAtBreaks(ReplaceAll(pass, s))
  {
    var n := MatchLength(pass, s);
    var g := GroupOneLength(pass);
    var rest := ReplaceAll(pass, s[n..]);
    assert ReplaceAll(pass, s) == s[..g] + " " + s[g..n] + rest;
    assert SpacedAtBreaks(s[..g] + " " + s[g..n] + rest) by {
      MatchGroups(pass, s);
      MatchTail(pass, s);
      BreaksAfterMatch(s[..g], s[g..n], rest);
    }
  }

  lemma BreaksAtCopy(pass: Pass, s: string)
    requires SpacedAtBreaks(s) && s != [] && MatchLength(pass, s) == 0
    requires SpacedAtBreaks(ReplaceAll(pass, s[1..]))
    ensures SpacedAtBreaks(ReplaceAll(pass, s))
  {
    if |s| > 1 {
      ReplaceAllHead(pass, s[1..]);
    }
    BreaksAfterCopy(s[0], ReplaceAll(pass, s[1..]));
  }

  /** Collapsing leaves a string whose whitespace is already at syllable breaks as it is. */
  lemma {:induction false} CollapseKeepsBreaks(s: string)
    requires SpacedAtBreaks(s)
    ensures CollapseSpaces(s) == s
    decreases |s|
  {
    if s != [] {
      SpacedAtBreaksSuffix(s, 1);
      CollapseKeepsBreaks(s[1..]);
      if IsSpace(s[0]) {
        LowerLetterNotSpace(s[1]);
        assert TrimStart(s[1..]) == s[1..];
        assert s == " " + s[1..];
      } else {
        assert s == [s[0]] + s[1..];
      }
    }
  }

  /** Trimming leaves such a string as it is when it does not start with whitespace. */
  lemma TrimKeepsBreaks(s: string)
    requires SpacedAtBreaks(s) && (s != [] ==> !IsSpace(s[0]))
    ensures Trim(s) == s
  {
    assert TrimStart(s) == s;
    if s != [] {
      assert !IsSpace(s[|s| - 1]);
    }
  }

  /** The four passes over whitespace-free input keep its first character and put every space at a syllable break. */
  lemma PassesSpacedAtBreaks(romaji: string)
    requires romaji != [] && forall i :: 0 <= i < |romaji| ==> !IsSpace(romaji[i])
    ensures var w := ReplaceAll(VowelPass, ReplaceAll(NasalPass, ReplaceAll(VowelPass, ReplaceAll(ClusterPass, romaji))));
      SpacedAtBreaks(w) && w != [] && w[0] == romaji[0]
  {
    var c := ReplaceAll(ClusterPass, romaji);
    var v := ReplaceAll(VowelPass, c);
    var n := ReplaceAll(NasalPass, v);
    ReplaceAllSpacedAtBreaks(ClusterPass, romaji);
    ReplaceAllSpacedAtBreaks(VowelPass, c);
    ReplaceAllSpacedAtBreaks(NasalPass, v);
    ReplaceAllSpacedAtBreaks(VowelPass, n);
    ReplaceAllHead(ClusterPass, romaji);
    ReplaceAllHead(VowelPass, c);
    ReplaceAllHead(NasalPass, v);
    ReplaceAllHead(VowelPass, n);
  }

  /**
   * On input without whitespace, every space of the result sits between the
   * end of a syllable (a vowel, or the syllabic n) and a consonant: it is
   * never inside a syllable.
   */
  lemma AddSpacesBreaksSyllables(romaji: string)
    requires forall i :: 0 <= i < |romaji| ==> !IsSpace(romaji[i])
    ensures var out := AddSpacesToRomaji(romaji);
      forall k :: 0 <= k < |out| && out[k] == ' ' ==>
        0 < k < |out| - 1 && SyllableEnd(out[k - 1]) && IsConsonant(out[k + 1])
  {
    if romaji != [] {
      var w := ReplaceAll(VowelPass, ReplaceAll(NasalPass, ReplaceAll(VowelPass, ReplaceAll(ClusterPass, romaji))));
      BlankIff(romaji);
      SpaceIsSpace();
      assert ' ' !in romaji;
      PassesSpacedAtBreaks(romaji);
      CollapseKeepsBreaks(w);
      TrimKeepsBreaks(w);
      AddSpacesUnfold(romaji);
      assert AddSpacesToRomaji(romaji) == w;
    }
  }

  // ---------------------------------------------------------------------------
  // What addSpacesToRomaji promises

  /** The spacer never adds, drops or reorders a letter: only whitespace changes. */
  lemma AddSpacesKeepsLetters(romaji: string)
    ensures DropSpaces(AddSpacesToRomaji(romaji)) == DropSpaces(romaji)
  {
    if Blank(romaji) {
      BlankIff(romaji);
      DropSpacesAllSpace(romaji);
    } else if ' ' !in romaji {
      var c := ReplaceAll(ClusterPass, romaji);
      var v := ReplaceAll(VowelPass, c);
      var n := ReplaceAll(NasalPass, v);
      var w := ReplaceAll(VowelPass, n);
      ReplaceAllInsertsSpaces(ClusterPass, romaji);
      SpacesInsertedDropSpaces(romaji, c);
      ReplaceAllInsertsSpaces(VowelPass, c);
      SpacesInsertedDropSpaces(c, v);
      ReplaceAllInsertsSpaces(NasalPass, v);
      SpacesInsertedDropSpaces(v, n);
      ReplaceAllInsertsSpaces(VowelPass, n);
      SpacesInsertedDropSpaces(n, w);
      CollapseKeepsNonSpace(w);
      TrimKeepsNonSpace(CollapseSpaces(w));
    }
  }

  /**
   * On input without a space the result is tidy (single spaces between
   * words, none at the ends) and every vowel that is followed by a
   * consonant and a vowel has been split from them.
   */
  lemma AddSpacesSplitsSyllables(romaji: string)
    requires ' ' !in romaji
    ensures Tidy(AddSpacesToRomaji(romaji))
    ensures NoUnsplit(AddSpacesToRomaji(romaji))
    ensures (forall i :: 0 <= i < |romaji| ==> !IsSpace(romaji[i])) ==>
      var out := AddSpacesToRomaji(romaji);
      forall k :: 0 <= k < |out| && out[k] == ' ' ==>
        0 < k < |out| - 1 && SyllableEnd(out[k - 1]) && IsConsonant(out[k + 1])
  {
    if forall i :: 0 <= i < |romaji| ==> !IsSpace(romaji[i]) {
      AddSpacesBreaksSyllables(romaji);
    }
    if !Blank(romaji) {
      var c := ReplaceAll(ClusterPass, romaji);
      var v := ReplaceAll(VowelPass, c);
      var n := ReplaceAll(NasalPass, v);
      var w := ReplaceAll(VowelPass, n);
      VowelPassGuarded(c);
      GuardedNoDouble(v);
      ReplaceAllInsertsSpaces(NasalPass, v);
      SpacesInsertedNoDouble(v, n);
      VowelPassSplits(n);
      CollapseNoUnsplit(w);
      TrimNoUnsplit(CollapseSpaces(w));
      CollapseSingleSpaced(w);
      TrimTidy(CollapseSpaces(w));
    }
  }

  /** The result is empty exactly for blank input: null, "" or whitespace only. */
  lemma AddSpacesEmptyIff(romaji: string)
    ensures AddSpacesToRomaji(romaji) == "" <==> Blank(romaji)
  {
    if !Blank(romaji) {
      BlankIff(romaji);
      DropSpacesEmpty(romaji);
      AddSpacesKeepsLetters(romaji);
    }
  }

  /** Input that already holds a space comes back unchanged, unless it is all whitespace. */
  lemma AddSpacesKeepsSpaced(romaji: string)
    requires ' ' in romaji
    ensures AddSpacesToRomaji(romaji) == if AllSpace(romaji) then "" else romaji
  {
    BlankIff(romaji);
  }

  /** Once the result holds a space, spacing it again changes nothing. */
  lemma AddSpacesIdempotentWhenSpaced(romaji: string)
    requires ' ' in AddSpacesToRomaji(romaji)
    ensures AddSpacesToRomaji(AddSpacesToRomaji(romaji)) == AddSpacesToRomaji(romaji)
  {
    var r := AddSpacesToRomaji(romaji);
    if ' ' !in romaji {
      AddSpacesSplitsSyllables(romaji);
      TrimIdempotent(CollapseSpaces(ReplaceAll(VowelPass, ReplaceAll(NasalPass,
        ReplaceAll(VowelPass, ReplaceAll(ClusterPass, romaji))))));
      assert Trim(r) == r;
    }
  }

  /** A pass that matches nowhere copies its input. */
  lemma {:induction false} NoMatchCopies(pass: Pass, s: string)
    requires forall i :: 0 <= i < |s| ==> MatchLength(pass, s[i..]) == 0
    ensures ReplaceAll(pass, s) == s
  {
    if s != [] {
      assert MatchLength(pass, s[0..]) == 0;
      assert s[0..] == s;
      forall i | 0 <= i < |s| - 1 ensures MatchLength(pass, s[1..][i..]) == 0 {
        assert s[1..][i..] == s[i + 1..];
      }
      NoMatchCopies(pass, s[1..]);
    }
  }

  /** The nasal pass matches nowhere in "ka na". */
  lemma KaNaNoNasalSplit()
    ensures ReplaceAll(NasalPass, "ka na") == "ka na"
  {
    var t := "ka na";
    assert t[1..] == "a na" && t[2..] == " na" && t[3..] == "na" && t[4..] == "a";
    forall i | 0 <= i < |t| ensures MatchLength(NasalPass, t[i..]) == 0 {
    }
    NoMatchCopies(NasalPass, t);
  }

  /** The vowel pass matches nowhere in "ka na". */
  lemma KaNaNoVowelSplit()
    ensures ReplaceAll(VowelPass, "ka na") == "ka na"
  {
    var t := "ka na";
    assert t[1..] == "a na" && t[2..] == " na" && t[3..] == "na" && t[4..] == "a";
    forall i | 0 <= i < |t| ensures MatchLength(VowelPass, t[i..]) == 0 {
    }
    NoMatchCopies(VowelPass, t);
  }

  lemma KanaNoCluster()
    ensures ReplaceAll(ClusterPass, "kana") == "kana"
  {
    var s := "kana";
    ClusterIff('k', 'a', 'n');
    forall i | 0 <= i < |s| ensures MatchLength(ClusterPass, s[i..]) == 0 {
    }
    NoMatchCopies(ClusterPass, s);
  }

  lemma KanaVowels()
    ensures ReplaceAll(VowelPass, "kana") == "ka na"
  {
    var s := "kana";
    assert s[1..] == "ana";
    assert MatchLength(VowelPass, "ana") == 3;
    assert "ana"[..1] == "a" && "ana"[1..3] == "na" && "ana"[3..] == [];
    assert ReplaceAll(VowelPass, "ana") == "a na";
  }

  lemma KaNaTidy()
    ensures Trim(CollapseSpaces("ka na")) == "ka na"
  {
    var t := "ka na";
    LetterNotSpace('k');
    LetterNotSpace('a');
    LetterNotSpace('n');
    assert TrimStart("na") == "na";
    assert CollapseSpaces("na") == "na";
    assert CollapseSpaces(t) == t;
    assert TrimStart(t) == t;
    assert TrimEnd(t) == t;
  }

  /** "kana" is split between its syllables. */
  lemma KanaExample()
    ensures AddSpacesToRomaji("kana") == "ka na"
  {
    var s := "kana";
    assert s[0] == 'k' && s[1] == 'a' && s[2] == 'n' && s[3] == 'a';
    LetterNotSpace('k');
    BlankIff(s);
    assert ' ' !in s;
    KanaNoCluster();
    KanaVowels();
    KaNaNoNasalSplit();
    KaNaNoVowelSplit();
    KaNaTidy();
    AddSpacesUnfold(s);
  }

  /** The four passes, the collapse and the trim, for text that is not blank and holds no space. */
  lemma AddSpacesUnfold(romaji: string)
    requires !Blank(romaji) && ' ' !in romaji
    ensures AddSpacesToRomaji(romaji) == Trim(CollapseSpaces(ReplaceAll(VowelPass, ReplaceAll(NasalPass,
              ReplaceAll(VowelPass, ReplaceAll(ClusterPass, romaji))))))
  {
  }

  /** The cluster pass does not match at the start of `s` when its first three letters are no cluster. */
  lemma NoClusterAt(s: string)
    requires |s| >= 4 && !ClusterShape(Lower(s[0]), Lower(s[1]), Lower(s[2]))
    ensures MatchLength(ClusterPass, s) == 0
  {
    ClusterIff(s[0], s[1], s[2]);
  }

  lemma DenshaNoCluster()
    ensures ReplaceAll(ClusterPass, "densha") == "densha"
  {
    ReplaceAllShort(ClusterPass, "ha");
    assert "sha"[1..] == "ha";
    assert ReplaceAll(ClusterPass, "sha") == "sha";
    assert "nsha"[0] == 'n' && "nsha"[1] == 's' && "nsha"[2] == 'h';
    NoClusterAt("nsha");
    assert "nsha"[1..] == "sha";
    assert ReplaceAll(ClusterPass, "nsha") == "nsha";
    assert "ensha"[0] == 'e' && "ensha"[1] == 'n' && "ensha"[2] == 's';
    NoClusterAt("ensha");
    assert "ensha"[1..] == "nsha";
    assert ReplaceAll(ClusterPass, "ensha") == "ensha";
    assert "densha"[0] == 'd' && "densha"[1] == 'e' && "densha"[2] == 'n';
    NoClusterAt("densha");
    assert "densha"[1..] == "ensha";
  }

  lemma DenshaNoVowelSplit()
    ensures ReplaceAll(VowelPass, "densha") == "densha"
  {
    var s := "densha";
    assert s[1..] == "ensha" && s[2..] == "nsha" && s[3..] == "sha" && s[4..] == "ha" && s[5..] == "a";
    forall i | 0 <= i < |s| ensures MatchLength(VowelPass, s[i..]) == 0 {
    }
    NoMatchCopies(VowelPass, s);
  }

  lemma DenshaNoNasalSplit()
    ensures ReplaceAll(NasalPass, "densha") == "densha"
  {
    var s := "densha";
    assert s[1..] == "ensha" && s[2..] == "nsha" && s[3..] == "sha" && s[4..] == "ha" && s[5..] == "a";
    forall i | 0 <= i < |s| ensures MatchLength(NasalPass, s[i..]) == 0 {
    }
    NoMatchCopies(NasalPass, s);
  }

  lemma DenshaTidy()
    ensures Trim(CollapseSpaces("densha")) == "densha"
  {
    var s := "densha";
    LetterNotSpace('d');
    LetterNotSpace('e');
    LetterNotSpace('n');
    LetterNotSpace('s');
    LetterNotSpace('h');
    LetterNotSpace('a');
    assert CollapseSpaces("a") == "a";
    assert CollapseSpaces("ha") == "ha";
    assert CollapseSpaces("sha") == "sha";
    assert CollapseSpaces("nsha") == "nsha";
    assert CollapseSpaces("ensha") == "ensha";
    assert CollapseSpaces(s) == s;
    assert TrimStart(s) == s;
    assert TrimEnd(s) == s;
  }

  /** "densha" matches none of the passes: "sha" is last, so no consonant follows it. */
  lemma DenshaExample()
    ensures AddSpacesToRomaji("densha") == "densha"
  {
    var s := "densha";
    assert s[0] == 'd' && s[1] == 'e' && s[2] == 'n' && s[3] == 's' && s[4] == 'h' && s[5] == 'a';
    LetterNotSpace('d');
    BlankIff(s);
    assert ' ' !in s;
    DenshaNoCluster();
    DenshaNoVowelSplit();
    DenshaNoNasalSplit();
    DenshaTidy();
    AddSpacesUnfold(s);
  }

  // ---------------------------------------------------------------------------
  // Readings: fallbackConversion and processJapanese

  /** Hiragana, katakana and romaji readings of a piece of Japanese text. */
  datatype Readings = Readings(hiragana: string, katakana: string, romaji: string)

  const NO_READINGS := Readings("", "", "")

  /**
   * The local converter (wanakana's `toHiragana`, `toKatakana`, `toRomaji`
   * applied to the same text): the three outputs, or None when one of the
   * calls throws.
   */
  type LocalConverter = string -> Option<Readings>

  /**
   * `fallbackConversion`: the converter's outputs when at least one of them
   * differs from the input, otherwise (or when the converter throws) three
   * empty strings.
   */
  function FallbackConversion(text: string, wanakana: LocalConverter): (r: Readings)
    ensures r == NO_READINGS || wanakana(text) == Some(r)
    ensures text != "" ==> r != Readings(text, text, text)
  {
    match wanakana(text)
    case None => NO_READINGS
    case Some(out) =>
      if out.hiragana != text || out.katakana != text || out.romaji != text then out
      else NO_READINGS
  }

  /** The fallback reports failure exactly when the converter throws or echoes its input three times. */
  lemma FallbackFailsIff(text: string, wanakana: LocalConverter)
    requires text != ""
    ensures FallbackConversion(text, wanakana) == NO_READINGS
        <==> (wanakana(text).None? || wanakana(text).value == Readings(text, text, text)
              || wanakana(text).value == NO_READINGS)
  {
  }

  /** How the call to `/api/convert` went, as the client sees it. */
  datatype RemoteReply =
    | Answered(hiragana: Option<string>, katakana: Option<string>, romaji: Option<string>)
      // `response.ok`: the three fields of the JSON body, None where absent
    | NotOk       // a response whose status is not in the 2xx range
    | Failed      // `fetch` or the JSON parsing threw

  /** `value || ""` for a field that is a string or absent. */
  function OrEmpty(v: Option<string>): string {
    v.GetOr("")
  }

  /**
   * `processJapanese`: blank input gives empty readings; otherwise the
   * trimmed text goes to the server when it holds a kanji (whose reply, when
   * it is OK, is taken field by field) and to the local converter when it
   * does not or when the server call fails. `reply` is the server's answer
   * for the trimmed text; it is only consulted when a kanji is present.
   */
  function ProcessJapanese(japanese: string, reply: RemoteReply, wanakana: LocalConverter): Readings {
    if Blank(japanese) then NO_READINGS
    else
      var text := Trim(japanese);
      if HasKanji(text) then
        match reply
        case Answered(h, k, r) => Readings(OrEmpty(h), OrEmpty(k), OrEmpty(r))
        case NotOk => FallbackConversion(text, wanakana)
        case Failed => FallbackConversion(text, wanakana)
      else FallbackConversion(text, wanakana)
  }

  /** Blank input yields empty readings whatever the server or the converter would do. */
  lemma ProcessBlank(japanese: string, reply: RemoteReply, wanakana: LocalConverter)
    requires AllSpace(japanese)
    ensures ProcessJapanese(japanese, reply, wanakana) == NO_READINGS
  {
    BlankIff(japanese);
  }

  /** Without a kanji the server is never consulted: any two replies give the same readings, the local ones. */
  lemma ProcessWithoutKanji(japanese: string, reply1: RemoteReply, reply2: RemoteReply, wanakana: LocalConverter)
    requires !HasKanji(japanese)
    ensures ProcessJapanese(japanese, reply1, wanakana) == ProcessJapanese(japanese, reply2, wanakana)
    ensures !Blank(japanese) ==> ProcessJapanese(japanese, reply1, wanakana) == FallbackConversion(Trim(japanese), wanakana)
  {
    KanjiSurvivesTrim(japanese);
  }

  /** With a kanji, an OK reply is taken field by field (absent fields become ""); a failed call falls back. */
  lemma ProcessWithKanji(japanese: string, reply: RemoteReply, wanakana: LocalConverter)
    requires HasKanji(japanese)
    ensures reply.Answered? ==>
      ProcessJapanese(japanese, reply, wanakana) == Readings(OrEmpty(reply.hiragana), OrEmpty(reply.katakana), OrEmpty(reply.romaji))
    ensures !reply.Answered? ==> ProcessJapanese(japanese, reply, wanakana) == FallbackConversion(Trim(japanese), wanakana)
  {
    KanjiSurvivesTrim(japanese);
    assert !Blank(japanese);
  }
}
