/** The name and country normalisers of tsw/util.py: `get_country`,
    `remove_seeds_from_name` and `clean_name`. */
module Names {
  import opened Wrappers
  import opened Text
  import opened Patterns

  /** `get_country`: the three letters of the only `[XYZ]` in `s`, or "" when
      there is none or more than one. */
  function GetCountry(s: string): (r: string)
    ensures r == "" || (|r| == 3 && forall j :: 0 <= j < 3 ==> IsUpper(r[j]))
    ensures r != "" <==> exists k :: UniqueMatch(CountryCode, s, k)
    ensures forall k: nat :: UniqueMatch(CountryCode, s, k) ==> k + 4 < |s| && r == s[k + 1..k + 4]
  {
    var found := FindAll(CountryCode, s);
    SingleFind(CountryCode, s);
    if |found| == 1 then
      CountryCodeLetters(s, found[0]);
      s[found[0] + 1..found[0] + 4]
    else ""
  }

  /** What a match of `\[([A-Z]{3})\]` at `k` consists of. */
  lemma CountryCodeLetters(s: string, k: nat)
    requires MatchEnd(CountryCode, s, k).Some?
    ensures k + 5 <= |s| && s[k] == '[' && s[k + 4] == ']'
    ensures forall j :: k + 1 <= j < k + 4 ==> IsUpper(s[j])
  {
  }

  /** `[XYZ]` between two bracket-free strings is the country. */
  lemma TaggedCountry(a: string, code: string, b: string)
    requires '[' !in a && '[' !in b
    requires |code| == 3 && forall j :: 0 <= j < 3 ==> IsUpper(code[j])
    ensures GetCountry(a + "[" + code + "]" + b) == code
  {
    var s := a + "[" + code + "]" + b;
    var p := |a|;
    var ends := Ends(CountryCode, s);
    assert s[p + 1..p + 4] == code;
    assert ends[p] == Some(p + 5);
    forall k | 0 <= k < |s| && k != p
      ensures ends[k].None?
    {
      if k < p {
        assert s[k] == a[k];
      } else if k < p + 4 {
        assert s[k] == code[k - p - 1];
      } else if k > p + 4 {
        assert s[k] == b[k - p - 5];
      }
    }
    assert UniqueMatch(CountryCode, s, p);
  }

  /** A string in which no `[XYZ]` occurs has no country. */
  lemma NoCountry(s: string)
    requires forall k :: 0 <= k < |s| ==> MatchEnd(CountryCode, s, k).None?
    ensures GetCountry(s) == ""
  {
  }

  /** The countries the project's tests read. */
  lemma CountryExamples()
    ensures GetCountry("[COL] ") == "COL"
    ensures GetCountry(" [COL] ") == "COL"
  {
    TaggedCountry("", "COL", " ");
    assert "" + "[" + "COL" + "]" + " " == "[COL] ";
    TaggedCountry(" ", "COL", " ");
    assert " " + "[" + "COL" + "]" + " " == " [COL] ";
  }

  /** The strings without a country that the project's tests read. */
  lemma NoCountryExamples()
    ensures GetCountry(" [] ") == ""
    ensures GetCountry(" Invalid ") == ""
  {
    NoCountry(" [] ");
    NoCountry(" Invalid ");
  }

  /** `re.sub(r"\[\d\/\d]", "", s)` and then `re.sub(r"\[\d\]", "", ...)`. */
  function DropSeeds(s: string): (r: string)
    ensures IsSubsequence(r, s)
    ensures '[' !in s ==> r == s
  {
    var a := RemoveAll(SlashSeed, s);
    var r := RemoveAll(Seed, a);
    SubsequenceTransitive(r, a, s);
    r
  }

  /** `DropSeeds`, then `re.sub(r"\[[A-Z]+\]", "", ...)`. */
  function DropTags(s: string): (r: string)
    ensures IsSubsequence(r, s)
    ensures '[' !in s ==> r == s
  {
    var a := DropSeeds(s);
    var r := RemoveAll(CountryTag, a);
    SubsequenceTransitive(r, a, s);
    r
  }

  /** `re.sub(r"^\s+", "", s)` and then `re.sub(r"\s+$", "", ...)`. */
  function Trim(s: string): (r: string)
    ensures exists i: nat :: TrimmedAt(r, s, i)
    ensures IsSubsequence(r, s)
    ensures |r| == 0 || (!IsSpace(r[0]) && !IsSpace(r[|r| - 1]))
  {
    var d := StripLeading(s);
    var r := StripTrailing(d);
    PrefixIsSubsequence(d, |r|);
    SuffixIsSubsequence(s, |s| - |d|);
    SubsequenceTransitive(r, d, s);
    TrimWitness(s, d, r);
    r
  }

  /** `r` is the stretch of `s` that starts `i` characters in, and `s` has
      only whitespace before and after it. */
  ghost predicate TrimmedAt(r: string, s: string, i: nat) {
    i + |r| <= |s| && r == s[i..i + |r|] && AllSpaces(s[..i]) && AllSpaces(s[i + |r|..])
  }

  lemma TrimWitness(s: string, d: string, r: string)
    requires |d| <= |s| && d == s[|s| - |d|..] && forall k :: 0 <= k < |s| - |d| ==> IsSpace(s[k])
    requires |r| <= |d| && r == d[..|r|] && forall k :: |r| <= k < |d| ==> IsSpace(d[k])
    ensures TrimmedAt(r, s, |s| - |d|)
  {
    var i := |s| - |d|;
    assert r == s[i..i + |r|];
    var tail := s[i + |r|..];
    forall k | 0 <= k < |tail|
      ensures IsSpace(tail[k])
    {
      assert tail[k] == d[|r| + k];
    }
  }

  /** `remove_seeds_from_name`: delete every `[d/d]`, then every `[d]`, then
      the trailing whitespace. */
  function RemoveSeedsFromName(s: string): (r: string)
    ensures IsSubsequence(r, s)
    ensures |r| == 0 || !IsSpace(r[|r| - 1])
    ensures '[' !in s ==> r == StripTrailing(s)
  {
    var a := DropSeeds(s);
    var r := StripTrailing(a);
    PrefixIsSubsequence(a, |r|);
    SubsequenceTransitive(r, a, s);
    r
  }

  /** `clean_name`: delete every `[d/d]`, `[d]` and `[A-Z+]`, then the
      whitespace at both ends. */
  function CleanName(s: string): (r: string)
    ensures IsSubsequence(r, s)
    ensures |r| == 0 || (!IsSpace(r[0]) && !IsSpace(r[|r| - 1]))
    ensures '[' !in s ==> r == Trim(s)
  {
    var a := DropTags(s);
    var r := Trim(a);
    SubsequenceTransitive(r, a, s);
    r
  }

  /** A name that is already clean comes back unchanged. */
  lemma CleanNameKeepsCleanName(s: string)
    requires '[' !in s
    requires |s| == 0 || (!IsSpace(s[0]) && !IsSpace(s[|s| - 1]))
    ensures CleanName(s) == s
  {
  }

  /** Cleaning a bracket-free name twice is cleaning it once. */
  lemma CleanNameSettles(s: string)
    requires '[' !in s
    ensures CleanName(CleanName(s)) == CleanName(s)
  {
    var r := CleanName(s);
    TrimKeepsOut(s, '[');
    CleanNameKeepsCleanName(r);
  }

  /** Trimming adds no character. */
  lemma TrimKeepsOut(s: string, c: char)
    requires c !in s
    ensures c !in Trim(s)
  {
    var r := Trim(s);
    var i: nat :| TrimmedAt(r, s, i);
    forall j | 0 <= j < |r|
      ensures r[j] != c
    {
      assert r[j] == s[i + j];
    }
  }

  /** `[d]`. */
  function SeedTag(d: char): string {
    ['[', d, ']']
  }

  /** `[d/e]`. */
  function SlashSeedTag(d: char, e: char): string {
    ['[', d, '/', e, ']']
  }

  /** `[code]`. */
  function CountryTagOf(code: string): string {
    ['['] + code + [']']
  }

  /** A tag no match of `p` starts at stays, and deletion carries on after it. */
  lemma KeepTag(p: Pattern, tag: string, rest: string)
    requires IsBracketed(p) && |tag| > 0 && '[' !in tag[1..]
    requires MatchEnd(p, tag + rest, 0).None?
    ensures RemoveAll(p, tag + rest) == tag + RemoveAll(p, rest)
  {
    var s := tag + rest;
    assert s[1..] == tag[1..] + rest;
    if tag[0] == '[' {
      assert RemoveAll(p, s) == [s[0]] + RemoveAll(p, s[1..]);
    } else {
      KeepFirst(p, s);
    }
    RemoveAllKeepsPlainPrefix(p, tag[1..], rest);
    ConsAppend(tag, RemoveAll(p, rest));
  }

  /** A tag that `p` matches whole is deleted. */
  lemma DropTag(p: Pattern, tag: string, rest: string)
    requires MatchEnd(p, tag + rest, 0) == Some(|tag|)
    ensures RemoveAll(p, tag + rest) == RemoveAll(p, rest)
  {
    assert (tag + rest)[|tag|..] == rest;
  }

  /** The seed `[d]` is deleted from a name, with whatever whitespace ends it. */
  lemma SeededName(a: string, d: char, b: string)
    requires '[' !in a && '[' !in b && IsDigit(d)
    ensures RemoveSeedsFromName(a + SeedTag(d) + b) == StripTrailing(a + b)
  {
    SeedDropped(a, d, b);
  }

  lemma SeedDropped(a: string, d: char, b: string)
    requires '[' !in a && '[' !in b && IsDigit(d)
    ensures DropSeeds(a + SeedTag(d) + b) == a + b
  {
    var tag := SeedTag(d);
    assert a + tag + b == a + (tag + b);
    RemoveAllKeepsPlainPrefix(SlashSeed, a, tag + b);
    KeepTag(SlashSeed, tag, b);
    RemoveAllKeepsPlainPrefix(Seed, a, tag + b);
    DropTag(Seed, tag, b);
  }

  /** The seed `[d/e]` is deleted from a name, with whatever whitespace ends it. */
  lemma SlashSeededName(a: string, d: char, e: char, b: string)
    requires '[' !in a && '[' !in b && IsDigit(d) && IsDigit(e)
    ensures RemoveSeedsFromName(a + SlashSeedTag(d, e) + b) == StripTrailing(a + b)
  {
    SlashSeedDropped(a, d, e, b);
  }

  lemma SlashSeedDropped(a: string, d: char, e: char, b: string)
    requires '[' !in a && '[' !in b && IsDigit(d) && IsDigit(e)
    ensures DropSeeds(a + SlashSeedTag(d, e) + b) == a + b
  {
    var tag := SlashSeedTag(d, e);
    assert a + tag + b == a + (tag + b);
    RemoveAllKeepsPlainPrefix(SlashSeed, a, tag + b);
    SlashTagMatches(d, e, b);
    DropTag(SlashSeed, tag, b);
    PlainJoin(a, b);
  }

  /** A seed `[d]` after a bracket-free prefix is deleted whatever follows
      it: the two passes carry on past it over the rest of the name. */
  lemma SeedDroppedBefore(a: string, d: char, b: string)
    requires '[' !in a && IsDigit(d)
    ensures DropSeeds(a + SeedTag(d) + b) == a + DropSeeds(b)
  {
    var tag := SeedTag(d);
    var b' := RemoveAll(SlashSeed, b);
    SeedTagPasses(d, b);
    assert a + tag + b == a + (tag + b);
    RemoveAllKeepsPlainPrefix(SlashSeed, a, tag + b);
    SeedTagMatches(d, b');
    DropTag(Seed, tag, b');
    RemoveAllKeepsPlainPrefix(Seed, a, tag + b');
  }

  lemma TwoSeedsExample()
    ensures RemoveSeedsFromName("A [1] B [2]") == "A  B"
  {
    var name := "A  B";
    TwoSeedsLayout(name);
    TwoSeedsName("A ", '1', " B ", '2', "");
    StripTrailingSpaces(name, " ");
  }

  lemma TwoSeedsLayout(name: string)
    requires name == "A  B"
    ensures "A " + SeedTag('1') + " B " + SeedTag('2') + "" == "A [1] B [2]"
    ensures "A " + " B " + "" == name + " "
    ensures '[' !in "A " && '[' !in " B " && AllSpaces(" ") && StripTrailing(name) == name
  {
  }

  /** The slash-seed pass keeps a seed `[d]` and carries on after it. */
  lemma SeedTagPasses(d: char, rest: string)
    requires IsDigit(d)
    ensures RemoveAll(SlashSeed, SeedTag(d) + rest) == SeedTag(d) + RemoveAll(SlashSeed, rest)
  {
    var s := SeedTag(d) + rest;
    assert s[0] == '[' && s[1] == d && s[2] == ']';
    KeepTag(SlashSeed, SeedTag(d), rest);
  }

  lemma SeedTagMatches(d: char, rest: string)
    requires IsDigit(d)
    ensures MatchEnd(Seed, SeedTag(d) + rest, 0) == Some(3)
  {
    var s := SeedTag(d) + rest;
    assert s[0] == '[' && s[1] == d && s[2] == ']';
  }

  /** The same for a seed `[d/e]`. */
  lemma SlashSeedDroppedBefore(a: string, d: char, e: char, b: string)
    requires '[' !in a && IsDigit(d) && IsDigit(e)
    ensures DropSeeds(a + SlashSeedTag(d, e) + b) == a + DropSeeds(b)
  {
    var tag := SlashSeedTag(d, e);
    assert a + tag + b == a + (tag + b);
    RemoveAllKeepsPlainPrefix(SlashSeed, a, tag + b);
    SlashTagMatches(d, e, b);
    DropTag(SlashSeed, tag, b);
    RemoveAllKeepsPlainPrefix(Seed, a, RemoveAll(SlashSeed, b));
  }

  /** A name with two seeds loses both, and the whitespace that then ends it. */
  lemma TwoSeedsName(a: string, d: char, b: string, e: char, c: string)
    requires '[' !in a && '[' !in b && '[' !in c && IsDigit(d) && IsDigit(e)
    ensures RemoveSeedsFromName(a + SeedTag(d) + b + SeedTag(e) + c) == StripTrailing(a + b + c)
  {
    var rest := b + SeedTag(e) + c;
    assert a + SeedTag(d) + b + SeedTag(e) + c == a + SeedTag(d) + rest;
    SeedDroppedBefore(a, d, rest);
    SeedDropped(b, e, c);
    assert a + (b + c) == a + b + c;
  }

  lemma SlashTagMatches(d: char, e: char, rest: string)
    requires IsDigit(d) && IsDigit(e)
    ensures MatchEnd(SlashSeed, SlashSeedTag(d, e) + rest, 0) == Some(5)
  {
    var s := SlashSeedTag(d, e) + rest;
    assert s[0] == '[' && s[1] == d && s[2] == '/' && s[3] == e && s[4] == ']';
  }

  lemma PlainJoin(a: string, b: string)
    requires '[' !in a && '[' !in b
    ensures '[' !in a + b
  {
  }

  /** The names the project's tests clean of their seeds. */
  lemma SeedExample()
    ensures RemoveSeedsFromName("Manuel Orozco [1]\t") == "Manuel Orozco"
  {
    var name := "Manuel Orozco";
    SeedExampleLayout(name);
    SeededName(name + " ", '1', "\t");
    StripTrailingSpaces(name, " \t");
  }

  lemma SeedExampleLayout(name: string)
    requires name == "Manuel Orozco"
    ensures name + " " + SeedTag('1') + "\t" == "Manuel Orozco [1]\t"
    ensures name + " " + "\t" == name + " \t"
    ensures '[' !in name + " " && AllSpaces(" \t") && StripTrailing(name) == name
  {
  }

  lemma SlashSeedExample()
    ensures RemoveSeedsFromName("Pedro Gutiérrez Pedro Gutiérrez [5/8]  ") == "Pedro Gutiérrez Pedro Gutiérrez"
  {
    var name := "Pedro Gutiérrez Pedro Gutiérrez";
    SlashSeedExampleLayout(name);
    SlashSeededName(name + " ", '5', '8', "  ");
    StripTrailingSpaces(name, "   ");
  }

  lemma SlashSeedExampleLayout(name: string)
    requires name == "Pedro Gutiérrez Pedro Gutiérrez"
    ensures name + " " + SlashSeedTag('5', '8') + "  " == "Pedro Gutiérrez Pedro Gutiérrez [5/8]  "
    ensures name + " " + "  " == name + "   "
    ensures '[' !in name + " " && AllSpaces("   ") && StripTrailing(name) == name
  {
  }

  /** Deletion is a single pass: the seed that the deletion of an inner seed
      closes up survives, and only a second call removes it. */
  lemma SeedRemovalIsSinglePass()
    ensures RemoveSeedsFromName("[[1]1]") == "[1]"
    ensures RemoveSeedsFromName("[1]") == ""
  {
    NestedSeedLeavesSeed();
    LoneSeedIsDropped();
    SeedNeedsNoStrip();
  }

  lemma SeedNeedsNoStrip()
    ensures StripTrailing("[1]") == "[1]" && StripTrailing("") == ""
  {
  }

  lemma NestedSeedLeavesSeed()
    ensures DropSeeds("[[1]1]") == "[1]"
  {
    assert "[[1]1]" == "[" + ("[1]" + "1]");
    assert MatchEnd(SlashSeed, "[[1]1]", 0).None?;
    assert MatchEnd(SlashSeed, "[1]1]", 0).None?;
    KeepTag(SlashSeed, "[", "[1]" + "1]");
    KeepTag(SlashSeed, "[1]", "1]");
    assert MatchEnd(Seed, "[[1]1]", 0).None?;
    assert MatchEnd(Seed, "[1]1]", 0) == Some(3);
    KeepTag(Seed, "[", "[1]" + "1]");
    DropTag(Seed, "[1]", "1]");
  }

  lemma LoneSeedIsDropped()
    ensures DropSeeds("[1]") == ""
  {
    assert "[1]" == "[1]" + "";
    assert MatchEnd(SlashSeed, "[1]", 0).None?;
    KeepTag(SlashSeed, "[1]", "");
    assert MatchEnd(Seed, "[1]", 0) == Some(3);
    DropTag(Seed, "[1]", "");
  }

  /** A seed and a country tag are deleted from a name, and the rest is
      trimmed on both sides. */
  lemma TaggedName(a: string, d: char, b: string, code: string, c: string)
    requires '[' !in a && '[' !in b && '[' !in c && IsDigit(d)
    requires |code| > 0 && forall j :: 0 <= j < |code| ==> IsUpper(code[j])
    ensures CleanName(a + SeedTag(d) + b + CountryTagOf(code) + c) == Trim(a + b + c)
  {
    var country := CountryTagOf(code);
    TaggedNameSeeds(a, d, b, code, c);
    RemoveAllKeepsPlainPrefix(CountryTag, a + b, country + c);
    CountryTagMatch(code, c);
    DropTag(CountryTag, country, c);
    assert a + b + country + c == (a + b) + (country + c);
  }

  /** The seed passes delete the seed and keep the country tag. */
  lemma TaggedNameSeeds(a: string, d: char, b: string, code: string, c: string)
    requires '[' !in a && '[' !in b && '[' !in c && IsDigit(d)
    requires |code| > 0 && forall j :: 0 <= j < |code| ==> IsUpper(code[j])
    ensures DropSeeds(a + SeedTag(d) + b + CountryTagOf(code) + c) == a + b + CountryTagOf(code) + c
  {
    var seed := SeedTag(d);
    var country := CountryTagOf(code);
    Regroup(a, seed, b, country, c);
    CountryTagShape(code);
    TaggedNameSlashPass(a, seed, b, country, c);
    TaggedNameSeedPass(a, d, b, country, c);
  }

  lemma Regroup(a: string, seed: string, b: string, country: string, c: string)
    ensures a + seed + b + country + c == a + (seed + (b + (country + c)))
    ensures a + (b + (country + c)) == a + b + country + c
  {
  }

  lemma CountryTagShape(code: string)
    requires |code| > 0 && forall j :: 0 <= j < |code| ==> IsUpper(code[j])
    ensures var country := CountryTagOf(code);
            |country| > 2 && country[0] == '[' && IsUpper(country[1]) && '[' !in country[1..]
  {
    assert CountryTagOf(code)[1..] == code + [']'];
  }

  /** The `[d]` pass deletes the seed and keeps the country tag. */
  lemma TaggedNameSeedPass(a: string, d: char, b: string, country: string, c: string)
    requires '[' !in a && '[' !in b && '[' !in c && IsDigit(d)
    requires |country| > 2 && country[0] == '[' && IsUpper(country[1]) && '[' !in country[1..]
    ensures RemoveAll(Seed, a + (SeedTag(d) + (b + (country + c)))) == a + (b + (country + c))
  {
    var seed := SeedTag(d);
    RemoveAllKeepsPlainPrefix(Seed, a, seed + (b + (country + c)));
    DropTag(Seed, seed, b + (country + c));
    RemoveAllKeepsPlainPrefix(Seed, b, country + c);
    assert MatchEnd(Seed, country + c, 0).None? by {
      assert (country + c)[1] == country[1];
    }
    KeepTag(Seed, country, c);
  }

  /** The `[d/d]` pass leaves a name with a one-digit seed and a country tag as it is. */
  lemma TaggedNameSlashPass(a: string, seed: string, b: string, country: string, c: string)
    requires '[' !in a && '[' !in b && '[' !in c
    requires |seed| == 3 && seed[0] == '[' && seed[1] != '[' && seed[2] == ']'
    requires |country| > 2 && country[0] == '[' && IsUpper(country[1]) && '[' !in country[1..]
    ensures RemoveAll(SlashSeed, a + (seed + (b + (country + c)))) == a + (seed + (b + (country + c)))
  {
    assert '[' !in seed[1..] by {
      assert seed[1..] == [seed[1], seed[2]];
    }
    RemoveAllKeepsPlainPrefix(SlashSeed, a, seed + (b + (country + c)));
    assert MatchEnd(SlashSeed, seed + (b + (country + c)), 0).None? by {
      assert (seed + (b + (country + c)))[2] == ']';
    }
    KeepTag(SlashSeed, seed, b + (country + c));
    RemoveAllKeepsPlainPrefix(SlashSeed, b, country + c);
    assert MatchEnd(SlashSeed, country + c, 0).None? by {
      assert (country + c)[1] == country[1];
    }
    KeepTag(SlashSeed, country, c);
  }

  /** `\[[A-Z]+\]` matches a whole country tag. */
  lemma CountryTagMatch(code: string, c: string)
    requires |code| > 0 && forall j :: 0 <= j < |code| ==> IsUpper(code[j])
    ensures MatchEnd(CountryTag, CountryTagOf(code) + c, 0) == Some(|code| + 2)
  {
    var s := CountryTagOf(code) + c;
    assert forall j :: 1 <= j < |code| + 1 ==> s[j] == code[j - 1];
    assert s[|code| + 1] == ']';
    RunEndIs(s, 1, |code| + 1, Upper);
  }
}
