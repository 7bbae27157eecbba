/** What the text helpers mean, each said without the helper's own way of computing. */
module TextLaws {
  import opened Text

  predicate Blank(s: string) {
    forall c <- s :: IsSpace(c)
  }

  lemma {:induction false} StripLeftExactly(s: string)
    ensures exists before :: Blank(before) && s == before + StripLeft(s)
    ensures StripLeft(s) != "" ==> !IsSpace(StripLeft(s)[0])
  {
    if s != "" && IsSpace(s[0]) {
      assert StripLeft(s) == StripLeft(s[1..]);
      StripLeftExactly(s[1..]);
      hide StripLeft;
      OneBlankMore(s, StripLeft(s));
    } else {
      assert Blank("") && s == "" + s;
    }
  }

  lemma {:induction false} OneBlankMore(s: string, rest: string)
    requires s != "" && IsSpace(s[0]) && exists before :: Blank(before) && s[1..] == before + rest
    ensures exists before :: Blank(before) && s == before + rest
  {
    var before :| Blank(before) && s[1..] == before + rest;
    var more := [s[0]] + before;
    assert s == [s[0]] + s[1..];
    assert s == more + rest;
    assert Blank(more);
  }

  lemma {:induction false} StripRightExactly(s: string)
    ensures StripRight(s) <= s && Blank(s[|StripRight(s)|..])
    ensures StripRight(s) != "" ==> !IsSpace(StripRight(s)[|StripRight(s)| - 1])
  {
    if s != "" && IsSpace(s[|s| - 1]) {
      var init := s[..|s| - 1];
      StripRightExactly(init);
      assert s == init + [s[|s| - 1]];
      assert s[|StripRight(s)|..] == init[|StripRight(s)|..] + [s[|s| - 1]];
    } else {
      assert s[|s|..] == "";
    }
  }

  /** Stripping takes blanks off both ends and leaves a text that begins and ends visibly. */
  lemma {:induction false} StripExactly(s: string)
    ensures exists before, after :: Blank(before) && Blank(after) && s == before + Strip(s) + after
    ensures var r := Strip(s); r != "" ==> !IsSpace(r[0]) && !IsSpace(r[|r| - 1])
  {
    hide *;
    StripIs(s);
    StripLeftExactly(s);
    StripRightExactly(StripLeft(s));
    Surrounded(s, StripLeft(s), StripRight(StripLeft(s)));
    SameStart(StripLeft(s), StripRight(StripLeft(s)));
  }

  lemma {:induction false} StripIs(s: string)
    ensures Strip(s) == StripRight(StripLeft(s))
  {
  }

  lemma {:induction false} Surrounded(s: string, rest: string, r: string)
    requires (exists before :: Blank(before) && s == before + rest) && r <= rest && Blank(rest[|r|..])
    ensures exists before, after :: Blank(before) && Blank(after) && s == before + r + after
  {
    hide Blank;
    var before :| Blank(before) && s == before + rest;
    var after := rest[|r|..];
    assert rest == r + after;
    assert s == before + r + after;
  }

  lemma {:induction false} SameStart(rest: string, r: string)
    requires r <= rest && (rest != "" ==> !IsSpace(rest[0]))
    ensures r != "" ==> !IsSpace(r[0])
  {
    hide IsSpace;
  }

  /** So a text strips to nothing exactly if it is blank. */
  lemma {:induction false} StripsToNothing(s: string)
    ensures Strip(s) == "" <==> Blank(s)
  {
    StripExactly(s);
    var before, after :| Blank(before) && Blank(after) && s == before + Strip(s) + after;
    if Strip(s) != "" {
      assert Strip(s)[0] in s;
    }
  }

  lemma {:induction false} LowerExactly(s: string, i: nat)
    requires i < |s|
    ensures |Lower(s)| == |s|
    ensures 'A' <= s[i] <= 'Z' ==> 'a' <= Lower(s)[i] <= 'z' && Lower(s)[i] - 'a' == s[i] - 'A'
    ensures !('A' <= s[i] <= 'Z') ==> Lower(s)[i] == s[i]
  {
  }

  lemma {:induction false} ContainsExactly(text: string, part: string)
    ensures Contains(text, part) <==> exists before, after :: text == before + part + after
  {
    if Contains(text, part) {
      var i :| 0 <= i <= |text| && FoundAt(text, part, i);
      assert text == text[..i] + part + text[i + |part|..];
    }
    if before, after :| text == before + part + after {
      assert FoundAt(text, part, |before|);
    }
  }

  /** A joined text grows at its end by the separator and the part. */
  lemma {:induction false} JoinExactly(parts: seq<string>, separator: string, last: string)
    ensures Join([], separator) == "" && Join([last], separator) == last
    ensures parts != [] ==> Join(parts + [last], separator) == Join(parts, separator) + separator + last
    decreases |parts|
  {
    if |parts| == 1 {
      assert (parts + [last])[1..] == [last];
    } else if |parts| > 1 {
      JoinExactly(parts[1..], separator, last);
      assert (parts + [last])[1..] == parts[1..] + [last];
    }
  }

  lemma {:induction false} CutExactly(s: string, n: nat)
    ensures Cut(s, n) <= s && |Cut(s, n)| <= n && (|Cut(s, n)| < n ==> Cut(s, n) == s)
  {
  }

  /** The number a decimal text reads as. */
  function Read(digits: string): int {
    if digits == "" then 0 else 10 * Read(digits[..|digits| - 1]) + (digits[|digits| - 1] as int - '0' as int)
  }

  lemma {:induction false} DecimalReadsBack(n: nat)
    ensures Read(Decimal(n)) == n && forall c <- Decimal(n) :: '0' <= c <= '9'
  {
    if n >= 10 {
      DecimalReadsBack(n / 10);
      assert Decimal(n)[..|Decimal(n)| - 1] == Decimal(n / 10);
    } else {
      assert [Digit(n)][..0] == "";
    }
  }

  /** The words with the blanks before each of them. */
  function Laid(gaps: seq<string>, words: seq<string>): string
    requires |gaps| == |words|
  {
    if words == [] then "" else gaps[0] + words[0] + Laid(gaps[1..], words[1..])
  }

  /** Blanks before every word, and at least one between two. */
  ghost predicate Apart(gaps: seq<string>) {
    forall k :: 0 <= k < |gaps| ==> Blank(gaps[k]) && (k > 0 ==> gaps[k] != "")
  }

  ghost predicate Lays(s: string, gaps: seq<string>, words: seq<string>, tail: string) {
    |gaps| == |words| && Blank(tail) && s == Laid(gaps, words) + tail && Apart(gaps)
  }

  /** The words are the unbroken visible runs of the text, in order: nothing but blanks lies before,
      between and after them, and between two of them there is a blank. */
  lemma {:induction false} WordsExactly(s: string) returns (gaps: seq<string>, tail: string)
    ensures Lays(s, gaps, Words(s), tail)
    ensures s != "" && IsSpace(s[0]) && gaps != [] ==> gaps[0] != ""
    decreases |s|
  {
    if s == "" {
      gaps, tail := [], "";
    } else if IsSpace(s[0]) {
      gaps, tail := WordsExactly(s[1..]);
      assert s == [s[0]] + s[1..] && Words(s) == Words(s[1..]);
      hide *;
      gaps, tail := BlankFirst(s[0], s[1..], gaps, Words(s), tail);
    } else {
      var w := FirstWord(s);
      var rest := s[|w|..];
      assert w != "" && s == w + rest && Words(s) == [w] + Words(rest);
      gaps, tail := WordsExactly(rest);
      assert rest == "" ==> gaps == [];
      hide *;
      WordFirst(w, rest, gaps, Words(rest), tail);
      gaps := [""] + gaps;
    }
  }

  lemma {:induction false} BlankFirst(c: char, rest: string, gaps: seq<string>, words: seq<string>, tail: string)
    returns (more: seq<string>, end: string)
    requires IsSpace(c) && Lays(rest, gaps, words, tail)
    ensures Lays([c] + rest, more, words, end) && (more != [] ==> more[0] != "")
  {
    if gaps == [] {
      more, end := [], [c] + tail;
    } else {
      more, end := [[c] + gaps[0]] + gaps[1..], tail;
      MoreGap(c, gaps, words);
    }
    hide Laid, IsSpace;
  }

  lemma {:induction false} WordFirst(w: string, rest: string, gaps: seq<string>, words: seq<string>, tail: string)
    requires Lays(rest, gaps, words, tail) && (gaps != [] ==> gaps[0] != "")
    ensures Lays(w + rest, [""] + gaps, [w] + words, tail)
  {
    assert ([""] + gaps)[1..] == gaps && ([w] + words)[1..] == words;
    hide IsSpace;
  }

  /** And each is unbroken and visible. */
  lemma {:induction false} WordsAreVisible(s: string)
    ensures forall w <- Words(s) :: w != "" && forall c <- w :: !IsSpace(c)
    decreases |s|
  {
    if s != "" && IsSpace(s[0]) {
      WordsAreVisible(s[1..]);
    } else if s != "" {
      WordsAreVisible(s[|FirstWord(s)|..]);
      hide Words;
      assert FirstWord(s) != "";
    }
    assert s != "" ==> Words(s) == if IsSpace(s[0]) then Words(s[1..]) else [FirstWord(s)] + Words(s[|FirstWord(s)|..]);
  }

  lemma {:induction false} MoreGap(c: char, gaps: seq<string>, words: seq<string>)
    requires |gaps| == |words| > 0
    ensures Laid([[c] + gaps[0]] + gaps[1..], words) == [c] + Laid(gaps, words)
  {
    assert ([[c] + gaps[0]] + gaps[1..])[1..] == gaps[1..];
  }

  ghost predicate Shows(text: string, part: string) {
    exists before, after :: text == before + part + after
  }

  lemma {:induction false} ShowsAround(before: string, part: string, after: string)
    ensures Shows(before + part + after, part)
  {
  }

  lemma {:induction false} ShowsWithin(text: string, middle: string, part: string)
    requires Shows(text, middle) && Shows(middle, part)
    ensures Shows(text, part)
  {
    var a, d :| text == a + middle + d;
    var b, c :| middle == b + part + c;
    assert text == (a + b) + part + (c + d);
  }

  /** A joined text shows every part. */
  lemma {:induction false} JoinShows(parts: seq<string>, separator: string, k: nat)
    requires k < |parts|
    ensures Shows(Join(parts, separator), parts[k])
    decreases |parts|
  {
    if |parts| == 1 {
      assert parts[0] == "" + parts[0] + "";
    } else if k == 0 {
      assert Join(parts, separator) == "" + parts[0] + (separator + Join(parts[1..], separator));
    } else {
      JoinShows(parts[1..], separator, k - 1);
      assert Join(parts, separator) == (parts[0] + separator) + Join(parts[1..], separator) + "";
      ShowsWithin(Join(parts, separator), Join(parts[1..], separator), parts[k]);
    }
  }
}
