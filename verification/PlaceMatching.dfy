/** Which places a query names (`dash_mcp/src/hoursAliases.ts`), for any table of aliases. */
module PlaceMatching {
  import opened Text

  // ----- normalised text

  /** What Unicode says: the lower-cased compatibility decomposition of a text, which characters are
      letters or numbers, and which are white space. */
  datatype Unicode = Unicode(fold: string -> string, wordChar: char -> bool, white: char -> bool)

  ghost predicate Sound(u: Unicode) {
    u.fold("") == "" && u.white(' ') && forall c :: u.white(c) ==> !u.wordChar(c)
  }

  /** The length of the run of characters at the start of `s` that are `in` the class. */
  function Span(inClass: char -> bool, s: string): (n: nat)
    ensures n <= |s| && (forall i :: 0 <= i < n ==> inClass(s[i])) && (n < |s| ==> !inClass(s[n]))
  {
    if s == [] || !inClass(s[0]) then 0 else 1 + Span(inClass, s[1..])
  }

  /** `replace(/[^...]+/g, ' ')`: every longest run of characters outside the class becomes one space. */
  function Separate(inClass: char -> bool, s: string): string
    decreases |s|
  {
    if s == [] then []
    else if inClass(s[0]) then [s[0]] + Separate(inClass, s[1..])
    else [' '] + Separate(inClass, s[1 + Span(c => !inClass(c), s[1..])..])
  }

  function TrimStart(white: char -> bool, s: string): string {
    if s != [] && white(s[0]) then TrimStart(white, s[1..]) else s
  }

  function TrimEnd(white: char -> bool, s: string): string {
    if s != [] && white(s[|s| - 1]) then TrimEnd(white, s[..|s| - 1]) else s
  }

  function RemoveQuotes(s: string): string {
    if s == [] then []
    else if s[0] == '\'' || s[0] == '\U{2019}' then RemoveQuotes(s[1..])
    else [s[0]] + RemoveQuotes(s[1..])
  }

  function SpellAmpersands(s: string): string {
    if s == [] then []
    else if s[0] == '&' then " and " + SpellAmpersands(s[1..])
    else [s[0]] + SpellAmpersands(s[1..])
  }

  function NormalizePlaceText(u: Unicode, value: string): string {
    var separated := Separate(u.wordChar, SpellAmpersands(RemoveQuotes(u.fold(value))));
    Separate(c => !u.white(c), TrimEnd(u.white, TrimStart(u.white, separated)))
  }

  /** The longest runs of characters of the class, in order. */
  function Runs(inClass: char -> bool, s: string): seq<string>
    decreases |s|
  {
    if s == [] then []
    else if !inClass(s[0]) then Runs(inClass, s[1..])
    else [s[..Span(inClass, s)]] + Runs(inClass, s[Span(inClass, s)..])
  }

  function Join(words: seq<string>): string {
    if words == [] then [] else if |words| == 1 then words[0] else words[0] + " " + Join(words[1..])
  }

  /** What the two replacements before the separation leave of a character: quotes go, and an ampersand
      is spelled out. */
  function SpelledChar(c: char): string {
    if c in {'\'', '\U{2019}'} then "" else if c == '&' then " and " else [c]
  }

  function Spelled(s: string): string {
    if s == [] then [] else Spelled(s[..|s| - 1]) + SpelledChar(s[|s| - 1])
  }

  lemma {:induction false} SpelledSplits(s: string)
    requires s != []
    ensures Spelled(s) == SpelledChar(s[0]) + Spelled(s[1..])
  {
    hide SpelledChar;
    var n := |s| - 1;
    if n == 0 {
      assert Spelled(s[..0]) == [] && Spelled(s[1..]) == [];
    } else {
      SpelledSplits(s[..n]);
      var first, middle, last := SpelledChar(s[0]), Spelled(s[..n][1..]), SpelledChar(s[n]);
      assert s[1..][..n - 1] == s[..n][1..] && s[1..][n - 1] == s[n] && s[..n][0] == s[0];
      assert first + middle + last == first + (middle + last);
    }
  }

  /** The two replacements together replace every character by its spelling. */
  lemma {:induction false} TwoReplacements(s: string)
    ensures SpellAmpersands(RemoveQuotes(s)) == Spelled(s)
  {
    if s != [] {
      SpelledSplits(s);
      TwoReplacements(s[1..]);
      var c, rest := s[0], RemoveQuotes(s[1..]);
      if c != '\'' && c != '\U{2019}' {
        assert ([c] + rest)[1..] == rest;
      }
    }
  }

  /** The words of a text: its name, for the purposes of matching. */
  function Words(u: Unicode, value: string): seq<string> {
    Runs(u.wordChar, Spelled(u.fold(value)))
  }

  predicate AllWords(inClass: char -> bool, words: seq<string>) {
    forall i :: 0 <= i < |words| ==> words[i] != [] && forall j :: 0 <= j < |words[i]| ==> inClass(words[i][j])
  }

  lemma {:induction false} RunsAreWords(inClass: char -> bool, s: string)
    ensures AllWords(inClass, Runs(inClass, s))
    decreases |s|
  {
    if s == [] {
    } else if !inClass(s[0]) {
      RunsAreWords(inClass, s[1..]);
    } else {
      RunsAreWords(inClass, s[Span(inClass, s)..]);
    }
  }

  lemma {:induction false} SeparateWord(inClass: char -> bool, w: string, rest: string)
    requires forall j :: 0 <= j < |w| ==> inClass(w[j])
    ensures Separate(inClass, w + rest) == w + Separate(inClass, rest)
  {
    if w == [] {
      assert w + rest == rest;
    } else {
      assert (w + rest)[1..] == w[1..] + rest;
      SeparateWord(inClass, w[1..], rest);
    }
  }

  lemma {:induction false} RunsSkip(inClass: char -> bool, s: string, n: nat)
    requires n <= |s| && forall i :: 0 <= i < n ==> !inClass(s[i])
    ensures Runs(inClass, s) == Runs(inClass, s[n..])
  {
    if n > 0 {
      RunsSkip(inClass, s[1..], n - 1);
      assert s[1..][n - 1..] == s[n..];
    }
  }

  /** The first run of a text that starts with one, and what is left after the gap behind it. */
  lemma FirstRun(inClass: char -> bool, s: string) returns (w: string, next: string)
    requires s != [] && inClass(s[0])
    ensures w != [] && |w| <= |s| && |next| < |s| && (next == [] || inClass(next[0]))
    ensures |w| == |s| ==> Separate(inClass, s) == w && Runs(inClass, s) == [w]
    ensures |w| < |s| ==> Separate(inClass, s) == w + (" " + Separate(inClass, next))
    ensures |w| < |s| ==> Runs(inClass, s) == [w] + Runs(inClass, next) && (next != [] ==> Runs(inClass, next) != [])
    ensures next == [] ==> Separate(inClass, next) == [] && Runs(inClass, next) == []
  {
    var n := Span(inClass, s);
    var rest := s[n..];
    w, next := s[..n], [];
    assert s == w + rest;
    SeparateWord(inClass, w, rest);
    if rest != [] {
      var gap := 1 + Span(c => !inClass(c), rest[1..]);
      next := rest[gap..];
      RunsSkip(inClass, rest, gap);
    }
  }

  /** A text that starts with a word separates into its words, joined by single spaces, and at most one space more. */
  lemma {:induction false} SeparateFromWord(inClass: char -> bool, s: string) returns (trail: string)
    requires s == [] || inClass(s[0])
    ensures Separate(inClass, s) == Join(Runs(inClass, s)) + trail
    ensures trail == "" || trail == " "
    ensures s == [] ==> trail == ""
    decreases |s|
  {
    trail := "";
    if s != [] {
      var w, next := FirstRun(inClass, s);
      hide Separate, Runs, Join;
      JoinOne(w);
      if |w| < |s| {
        var t := Join(Runs(inClass, next));
        if next == [] {
          trail := " ";
          assert w + (" " + []) == w + " ";
        } else {
          trail := SeparateFromWord(inClass, next);
          JoinMore(w, Runs(inClass, next));
          Regroup(w, " ", t, trail);
        }
      }
    }
  }

  lemma Regroup(a: string, b: string, c: string, d: string)
    ensures a + (b + (c + d)) == a + b + c + d
  {
    assert b + (c + d) == b + c + d;
    assert a + (b + c + d) == a + (b + c) + d;
    assert a + (b + c) == a + b + c;
  }

  lemma JoinOne(w: string)
    ensures Join([w]) == w && Join([]) == []
  {
  }

  lemma JoinMore(w: string, words: seq<string>)
    requires words != []
    ensures Join([w] + words) == w + " " + Join(words)
  {
    assert ([w] + words)[1..] == words;
  }

  lemma SeparateJoins(inClass: char -> bool, s: string) returns (lead: string, trail: string)
    ensures (lead == "" || lead == " ") && (trail == "" || trail == " ")
    ensures Separate(inClass, s) == lead + Join(Runs(inClass, s)) + trail
    ensures Runs(inClass, s) == [] ==> trail == ""
  {
    var gap := Span(c => !inClass(c), s);
    RunsSkip(inClass, s, gap);
    trail := SeparateFromWord(inClass, s[gap..]);
    lead := if gap > 0 then " " else "";
    if gap > 0 {
      LeadingGap(inClass, s);
      hide Separate, Runs, Join;
      assert " " + (Join(Runs(inClass, s)) + trail) == " " + Join(Runs(inClass, s)) + trail;
    } else {
      assert s[gap..] == s;
      hide Separate, Runs, Join;
      assert "" + Join(Runs(inClass, s)) == Join(Runs(inClass, s));
    }
  }

  lemma LeadingGap(inClass: char -> bool, s: string)
    requires Span(c => !inClass(c), s) > 0
    ensures Separate(inClass, s) == " " + Separate(inClass, s[Span(c => !inClass(c), s)..])
  {
    var gap := Span(c => !inClass(c), s);
    assert s[1..][gap - 1..] == s[gap..];
  }

  /** Joined words start and end with a character of the class, and have no two spaces in a row. */
  lemma {:induction false} JoinShape(inClass: char -> bool, words: seq<string>)
    requires AllWords(inClass, words) && words != []
    ensures var t := Join(words);
            && t != [] && inClass(t[0]) && inClass(t[|t| - 1])
            && (forall i :: 0 <= i < |t| ==> inClass(t[i]) || t[i] == ' ')
            && (forall i :: 0 < i < |t| ==> inClass(t[i - 1]) || inClass(t[i]))
  {
    if |words| > 1 {
      JoinShape(inClass, words[1..]);
      var w, t := words[0], Join(words[1..]);
      assert Join(words) == w + " " + t;
    }
  }

  lemma {:induction false} TrimStartJoined(white: char -> bool, lead: string, t: string)
    requires lead == "" || lead == " "
    requires white(' ') && (t == [] || !white(t[0]))
    ensures TrimStart(white, lead + t) == t
  {
    if lead == " " {
      assert (lead + t)[1..] == t;
    } else {
      assert lead + t == t;
    }
  }

  lemma {:induction false} TrimEndJoined(white: char -> bool, t: string, trail: string)
    requires trail == "" || trail == " "
    requires white(' ') && (t == [] || !white(t[|t| - 1]))
    ensures TrimEnd(white, t + trail) == t
  {
    if trail == " " {
      assert (t + trail)[..|t + trail| - 1] == t;
    } else {
      assert t + trail == t;
    }
  }

  /** A text whose only separators are single spaces is not changed by separating it again. */
  lemma {:induction false} SeparateAgain(inClass: char -> bool, t: string)
    requires forall i :: 0 <= i < |t| ==> inClass(t[i]) || t[i] == ' '
    requires forall i :: 0 < i < |t| ==> inClass(t[i - 1]) || inClass(t[i])
    ensures Separate(inClass, t) == t
  {
    if t != [] {
      SeparateAgain(inClass, t[1..]);
      if !inClass(t[0]) {
        assert Span(c => !inClass(c), t[1..]) == 0;
        assert t[1 + 0..] == t[1..];
      }
      assert t == [t[0]] + t[1..];
    }
  }

  /** The normalised text is exactly its words joined by single spaces: the three last steps leave no
      other white space behind, at the ends or inside. */
  lemma NormalForm(u: Unicode, value: string)
    requires Sound(u)
    ensures AllWords(u.wordChar, Words(u, value))
    ensures NormalizePlaceText(u, value) == Join(Words(u, value))
  {
    var spelled := Spelled(u.fold(value));
    TwoReplacements(u.fold(value));
    RunsAreWords(u.wordChar, spelled);
    var lead, trail := SeparateJoins(u.wordChar, spelled);
    var words := Words(u, value);
    var t := Join(words);
    assert words == Runs(u.wordChar, spelled);
    hide Separate, Runs, Spelled, AllWords, TrimStart, TrimEnd, SpellAmpersands, RemoveQuotes, Words, Join;
    JoinOne("");
    if words == [] {
      assert lead + t + trail == lead + [];
      TrimStartJoined(u.white, lead, []);
      NothingLeft(u);
    } else {
      JoinShape(u.wordChar, words);
      assert lead + t + trail == lead + (t + trail);
      TrimStartJoined(u.white, lead, t + trail);
      TrimEndJoined(u.white, t, trail);
      SeparateAgain(c => !u.white(c), t);
    }
  }

  lemma NothingLeft(u: Unicode)
    ensures Separate(c => !u.white(c), TrimEnd(u.white, [])) == []
  {
  }

  // ----- phrases

  predicate IncludesAt(hay: string, needle: string, i: nat) {
    i + |needle| <= |hay| && hay[i..i + |needle|] == needle
  }

  predicate Includes(hay: string, needle: string) {
    exists i: nat | i <= |hay| :: IncludesAt(hay, needle, i)
  }

  predicate IncludesPhrase(hay: string, needle: string) {
    |needle| > 0 && Includes(" " + hay + " ", " " + needle + " ")
  }

  predicate PhraseAt(words: seq<string>, phrase: seq<string>, k: nat) {
    k + |phrase| <= |words| && words[k..k + |phrase|] == phrase
  }

  /** `phrase` is a stretch of consecutive words of `words`. */
  predicate Phrase(words: seq<string>, phrase: seq<string>) {
    exists k: nat | k <= |words| :: PhraseAt(words, phrase, k)
  }

  /** Words without a space in them. */
  predicate Plain(words: seq<string>) {
    forall i :: 0 <= i < |words| ==> words[i] != [] && ' ' !in words[i]
  }

  /** Every word with a space before it, and a space at the end. */
  function Closed(words: seq<string>): string {
    if words == [] then " " else " " + words[0] + Closed(words[1..])
  }

  lemma {:induction false} PadIsClosed(words: seq<string>)
    requires words != []
    ensures " " + Join(words) + " " == Closed(words)
  {
    if |words| == 1 {
      assert Closed(words) == " " + words[0] + Closed([]);
    } else {
      PadIsClosed(words[1..]);
      assert " " + Join(words) + " " == " " + words[0] + (" " + Join(words[1..]) + " ");
    }
  }

  lemma {:induction false} ClosedShape(words: seq<string>)
    ensures Closed(words) != [] && Closed(words)[0] == ' '
  {
  }

  /** Two words followed by a space, one text a prefix of the other: the words are the same. */
  lemma FirstWord(a: string, x: string, b: string, y: string)
    requires ' ' !in a && ' ' !in b
    requires x != [] && x[0] == ' ' && y != [] && y[0] == ' '
    requires |a + x| <= |b + y| && (b + y)[..|a + x|] == a + x
    ensures a == b && |x| <= |y| && y[..|x|] == x
  {
    assert forall j :: 0 <= j < |a| ==> (a + x)[j] == a[j] != ' ';
    assert forall j :: 0 <= j < |b| ==> (b + y)[j] == b[j] != ' ';
    assert (b + y)[|a|] == (a + x)[|a|] == ' ' && (b + y)[|b|] == ' ';
    assert a == (a + x)[..|a|] == (b + y)[..|a|] == b;
    assert x == (a + x)[|a|..] == (b + y)[|a|..|a + x|] == y[..|x|];
  }

  lemma {:induction false} PrefixOfWords(hay: seq<string>, phrase: seq<string>)
    requires Plain(hay) && Plain(phrase)
    requires |Closed(phrase)| <= |Closed(hay)| && Closed(hay)[..|Closed(phrase)|] == Closed(phrase)
    ensures |phrase| <= |hay| && hay[..|phrase|] == phrase
  {
    if phrase != [] {
      var a, x := phrase[0], Closed(phrase[1..]);
      ClosedShape(phrase[1..]);
      assert |Closed(phrase)| >= 3 && hay != [];
      var b, y := hay[0], Closed(hay[1..]);
      ClosedShape(hay[1..]);
      assert Closed(phrase) == " " + (a + x) && Closed(hay) == " " + (b + y);
      assert (b + y)[..|a + x|] == Closed(hay)[1..|Closed(phrase)|] == a + x;
      FirstWord(a, x, b, y);
      PrefixOfWords(hay[1..], phrase[1..]);
      assert hay[..|phrase|] == [hay[0]] + hay[1..][..|phrase| - 1];
    }
  }

  /** A match that starts with a space and not at the start lies wholly after the first word. */
  lemma PastFirstWord(hay: seq<string>, needle: string, i: nat)
    requires Plain(hay) && hay != [] && i > 0
    requires needle != [] && needle[0] == ' ' && IncludesAt(Closed(hay), needle, i)
    ensures var skip := 1 + |hay[0]|; i >= skip && IncludesAt(Closed(hay[1..]), needle, i - skip)
  {
    var skip := 1 + |hay[0]|;
    var text, rest := Closed(hay), Closed(hay[1..]);
    assert text == " " + hay[0] + rest;
    hide Closed;
    assert text[i] == needle[0] == ' ';
    assert forall j :: 1 <= j < skip ==> text[j] == hay[0][j - 1] != ' ';
    assert text[skip..] == rest;
    assert text[i..i + |needle|] == rest[i - skip..i - skip + |needle|];
  }

  lemma ClosedLong(words: seq<string>)
    requires Plain(words) && words != []
    ensures |Closed(words)| >= 3
  {
    ClosedShape(words[1..]);
  }

  lemma PlainRest(words: seq<string>)
    requires Plain(words) && words != []
    ensures Plain(words[1..])
  {
  }

  lemma {:induction false} TextToWords(hay: seq<string>, phrase: seq<string>, i: nat)
    requires Plain(hay) && Plain(phrase) && phrase != []
    requires IncludesAt(Closed(hay), Closed(phrase), i)
    ensures exists k: nat :: PhraseAt(hay, phrase, k)
    decreases |hay|
  {
    ClosedShape(phrase);
    ClosedLong(phrase);
    assert hay != [];
    hide Closed, Plain;
    assert Plain(hay[1..]) by { PlainRest(hay); }
    if i == 0 {
      PrefixOfWords(hay, phrase);
      assert PhraseAt(hay, phrase, 0);
    } else {
      var skip := 1 + |hay[0]|;
      PastFirstWord(hay, Closed(phrase), i);
      TextToWords(hay[1..], phrase, i - skip);
      var k: nat :| PhraseAt(hay[1..], phrase, k);
      PhraseLater(hay, phrase, k);
    }
  }

  lemma PhraseLater(hay: seq<string>, phrase: seq<string>, k: nat)
    requires hay != [] && PhraseAt(hay[1..], phrase, k)
    ensures PhraseAt(hay, phrase, k + 1)
  {
    assert hay[k + 1..k + 1 + |phrase|] == hay[1..][k..k + |phrase|];
  }

  lemma {:induction false} ClosedPrefix(hay: seq<string>, n: nat)
    requires n <= |hay|
    ensures |Closed(hay[..n])| <= |Closed(hay)| && Closed(hay)[..|Closed(hay[..n])|] == Closed(hay[..n])
  {
    if n == 0 {
      ClosedShape(hay);
    } else {
      ClosedPrefix(hay[1..], n - 1);
      assert hay[..n] == [hay[0]] + hay[1..][..n - 1] && hay[..n][1..] == hay[1..][..n - 1];
    }
  }

  lemma {:induction false} WordsToText(hay: seq<string>, phrase: seq<string>, k: nat)
    requires PhraseAt(hay, phrase, k)
    ensures exists i: nat :: IncludesAt(Closed(hay), Closed(phrase), i)
    decreases k
  {
    if k == 0 {
      ClosedPrefix(hay, |phrase|);
      assert IncludesAt(Closed(hay), Closed(phrase), 0);
    } else {
      assert hay[1..][k - 1..k - 1 + |phrase|] == hay[k..k + |phrase|];
      WordsToText(hay[1..], phrase, k - 1);
      var i: nat :| IncludesAt(Closed(hay[1..]), Closed(phrase), i);
      var skip := 1 + |hay[0]|;
      assert Closed(hay)[skip..] == Closed(hay[1..]);
      assert Closed(hay)[skip + i..skip + i + |Closed(phrase)|] == Closed(hay[1..])[i..i + |Closed(phrase)|];
      assert IncludesAt(Closed(hay), Closed(phrase), skip + i);
    }
  }

  /** On joined words, the padded substring test is the test for a stretch of whole words. */
  lemma PhraseTest(hay: seq<string>, phrase: seq<string>)
    requires Plain(hay) && Plain(phrase)
    ensures IncludesPhrase(Join(hay), Join(phrase)) <==> phrase != [] && Phrase(hay, phrase)
  {
    if phrase != [] {
      PadIsClosed(phrase);
      ClosedShape(phrase[1..]);
      assert |Join(phrase)| > 0 by { assert |Closed(phrase)| >= 3; }
      if hay == [] {
        assert " " + Join(hay) + " " == "  ";
      } else {
        PadIsClosed(hay);
        if Phrase(hay, phrase) {
          var k: nat :| PhraseAt(hay, phrase, k);
          WordsToText(hay, phrase, k);
        }
        if Includes(Closed(hay), Closed(phrase)) {
          var i: nat :| IncludesAt(Closed(hay), Closed(phrase), i);
          TextToWords(hay, phrase, i);
        }
      }
    }
  }

  // ----- places

  /** One key of the table with its aliases. */
  datatype Entry = Entry(place: string, aliases: seq<string>)

  function Places(table: seq<Entry>): (r: seq<string>)
    ensures forall x :: x in r <==> exists i :: 0 <= i < |table| && table[i].place == x
  {
    if table == [] then [] else [table[0].place] + Places(table[1..])
  }

  function AliasesFor(table: seq<Entry>, place: string): seq<string> {
    if table == [] then []
    else if table[0].place == place then table[0].aliases
    else AliasesFor(table[1..], place)
  }

  function MatchingPlaces(u: Unicode, places: seq<string>, normalizedValue: string): (r: seq<string>)
    ensures forall x :: x in r <==> x in places && IncludesPhrase(normalizedValue, NormalizePlaceText(u, x))
  {
    if places == [] then []
    else if IncludesPhrase(normalizedValue, NormalizePlaceText(u, places[0]))
    then [places[0]] + MatchingPlaces(u, places[1..], normalizedValue)
    else MatchingPlaces(u, places[1..], normalizedValue)
  }

  /** `Math.max(0, ...lengths)` over the normalised names. */
  function LongestName(u: Unicode, places: seq<string>): (n: nat)
    ensures forall x :: x in places ==> |NormalizePlaceText(u, x)| <= n
    ensures places != [] ==> exists x :: x in places && |NormalizePlaceText(u, x)| == n
  {
    if places == [] then 0
    else
      var rest := LongestName(u, places[1..]);
      if rest > |NormalizePlaceText(u, places[0])| then rest else |NormalizePlaceText(u, places[0])|
  }

  /** `split(' ')`. */
  function Split(s: string): (r: seq<string>)
    ensures r != []
  {
    if s == [] then [""]
    else if s[0] == ' ' then [""] + Split(s[1..])
    else
      var rest := Split(s[1..]);
      [[s[0]] + rest[0]] + rest[1..]
  }

  function NamesOf(table: seq<Entry>, place: string): seq<string> {
    [place] + AliasesFor(table, place)
  }

  /** `place` is a place of the table whose name the value includes, and no such name is longer. */
  predicate LongestMatch(u: Unicode, table: seq<Entry>, normalizedValue: string, place: string) {
    var matchingPlaces := MatchingPlaces(u, Places(table), normalizedValue);
    place in matchingPlaces && |NormalizePlaceText(u, place)| == LongestName(u, matchingPlaces)
  }

  ghost predicate CampusHoursPlaceMatches(u: Unicode, table: seq<Entry>, value: string, query: Option<string>) {
    if query.None? || query.value == "" then true
    else
      var normalizedValue := NormalizePlaceText(u, value);
      var normalizedQuery := NormalizePlaceText(u, query.value);
      if normalizedQuery == "" then true
      else if forall word :: word in Split(normalizedQuery) ==> Includes(normalizedValue, word) then true
      else
        exists place :: LongestMatch(u, table, normalizedValue, place)
          && exists name :: name in NamesOf(table, place)
               && IncludesPhrase(normalizedQuery, NormalizePlaceText(u, name))
  }

  lemma {:induction false} SplitWord(w: string, rest: string)
    requires ' ' !in w
    ensures Split(w + rest) == [w + Split(rest)[0]] + Split(rest)[1..]
  {
    if w == [] {
      assert w + rest == rest;
      assert w + Split(rest)[0] == Split(rest)[0];
    } else {
      assert (w + rest)[1..] == w[1..] + rest;
      SplitWord(w[1..], rest);
      assert [w[0]] + (w[1..] + Split(rest)[0]) == w + Split(rest)[0];
    }
  }

  lemma SplitLast(w: string)
    requires ' ' !in w
    ensures Split(w) == [w]
  {
    SplitWord(w, "");
    assert w + "" == w;
  }

  lemma SplitFirst(w: string, t: string)
    requires ' ' !in w
    ensures Split(w + " " + t) == [w] + Split(t)
  {
    SplitWord(w, " " + t);
    assert (" " + t)[1..] == t;
    assert w + (" " + t) == w + " " + t;
    assert w + "" == w;
  }

  /** Splitting joined words gives the words back. */
  lemma {:induction false} SplitJoin(words: seq<string>)
    requires Plain(words) && words != []
    ensures Split(Join(words)) == words
  {
    hide Split;
    if |words| == 1 {
      SplitLast(words[0]);
      assert words == [words[0]];
    } else {
      SplitJoin(words[1..]);
      SplitFirst(words[0], Join(words[1..]));
      assert words == [words[0]] + words[1..];
    }
  }

  // ----- what the test means, in words

  /** `phrase` names something in `words`: its words are there, side by side. */
  predicate Mentions(words: seq<string>, phrase: seq<string>) {
    phrase != [] && Phrase(words, phrase)
  }

  /** A place of the table named in the value, than which no place with a longer name is. */
  predicate MostDetailed(u: Unicode, table: seq<Entry>, value: string, place: string) {
    && place in Places(table) && Mentions(Words(u, value), Words(u, place))
    && forall other :: other in Places(table) && Mentions(Words(u, value), Words(u, other))
         ==> |Join(Words(u, other))| <= |Join(Words(u, place))|
  }

  /** The places are the keys of an object. */
  predicate DistinctPlaces(table: seq<Entry>) {
    forall i, j :: 0 <= i < j < |table| ==> table[i].place != table[j].place
  }

  lemma OneMorePlace(table: seq<Entry>, e: Entry)
    ensures DistinctPlaces([])
    ensures DistinctPlaces(table + [e]) <==> DistinctPlaces(table) && e.place !in Places(table)
  {
    var more := table + [e];
    if DistinctPlaces(more) {
      assert forall i :: 0 <= i < |table| ==> more[i] == table[i] && more[i].place != more[|table|].place;
    }
  }

  /** `name` is the name of a place or one of the aliases filed under it. */
  predicate IsNameOf(table: seq<Entry>, place: string, name: string) {
    exists e :: e in table && e.place == place && (name == e.place || name in e.aliases)
  }

  lemma {:induction false} AliasesFound(table: seq<Entry>, k: nat)
    requires DistinctPlaces(table) && k < |table|
    ensures AliasesFor(table, table[k].place) == table[k].aliases
  {
    if k > 0 { AliasesFound(table[1..], k - 1); }
  }

  lemma NamesAreOfEntry(table: seq<Entry>, place: string)
    requires DistinctPlaces(table) && place in Places(table)
    ensures forall name :: name in NamesOf(table, place) <==> IsNameOf(table, place, name)
  {
    var k :| 0 <= k < |table| && table[k].place == place;
    AliasesFound(table, k);
    assert table[k] in table;
    assert forall e :: e in table && e.place == place ==> e == table[k];
  }

  ghost predicate NamedBy(u: Unicode, table: seq<Entry>, query: string, place: string) {
    exists name :: IsNameOf(table, place, name) && Mentions(Words(u, query), Words(u, name))
  }

  predicate ContainsEveryWord(u: Unicode, value: string, query: string) {
    forall w :: w in Words(u, query) ==> Includes(Join(Words(u, value)), w)
  }

  lemma WordsPlain(u: Unicode, value: string)
    requires Sound(u)
    ensures Plain(Words(u, value))
    ensures NormalizePlaceText(u, value) == Join(Words(u, value))
    ensures Join(Words(u, value)) == [] <==> Words(u, value) == []
  {
    NormalForm(u, value);
    if Words(u, value) != [] { JoinShape(u.wordChar, Words(u, value)); }
  }

  lemma EmptyText(u: Unicode)
    requires Sound(u)
    ensures Words(u, "") == []
  {
  }

  lemma PlaceTest(u: Unicode, value: string, place: string)
    requires Sound(u)
    ensures IncludesPhrase(NormalizePlaceText(u, value), NormalizePlaceText(u, place))
        <==> Mentions(Words(u, value), Words(u, place))
  {
    WordsPlain(u, value);
    WordsPlain(u, place);
    PhraseTest(Words(u, value), Words(u, place));
  }

  lemma LongestIsMostDetailed(u: Unicode, table: seq<Entry>, value: string, place: string)
    requires Sound(u)
    ensures LongestMatch(u, table, NormalizePlaceText(u, value), place) <==> MostDetailed(u, table, value, place)
  {
    hide Words, NormalizePlaceText, IncludesPhrase, Mentions;
    forall p
      ensures IncludesPhrase(NormalizePlaceText(u, value), NormalizePlaceText(u, p))
          <==> Mentions(Words(u, value), Words(u, p))
      ensures NormalizePlaceText(u, p) == Join(Words(u, p))
    {
      PlaceTest(u, value, p);
      WordsPlain(u, p);
    }
  }

  /** A query matches a value exactly when it has no words, or the value contains each of its words, or
      the query mentions, word for word, a name or an alias of a most detailed place named in the value. */
  lemma MatchesByWords(u: Unicode, table: seq<Entry>, value: string, query: string)
    requires Sound(u) && DistinctPlaces(table)
    ensures CampusHoursPlaceMatches(u, table, value, None)
    ensures CampusHoursPlaceMatches(u, table, value, Some(query))
        <==> Words(u, query) == [] || ContainsEveryWord(u, value, query)
             || exists place :: MostDetailed(u, table, value, place) && NamedBy(u, table, query, place)
  {
    hide Words, NormalizePlaceText, LongestMatch, MostDetailed, IncludesPhrase, Mentions, Split, NamesOf, IsNameOf,
         DistinctPlaces;
    WordsPlain(u, query);
    EmptyText(u);
    if Words(u, query) != [] {
      WordsPlain(u, value);
      SplitJoin(Words(u, query));
      forall place
        ensures LongestMatch(u, table, NormalizePlaceText(u, value), place) <==> MostDetailed(u, table, value, place)
        ensures MostDetailed(u, table, value, place) ==>
                  forall name :: name in NamesOf(table, place) <==> IsNameOf(table, place, name)
      {
        LongestIsMostDetailed(u, table, value, place);
        DetailedIsPlace(u, table, value, place);
        if MostDetailed(u, table, value, place) { NamesAreOfEntry(table, place); }
      }
      forall name {
        PlaceTest(u, query, name);
      }
    }
  }

  lemma DetailedIsPlace(u: Unicode, table: seq<Entry>, value: string, place: string)
    ensures MostDetailed(u, table, value, place) ==> place in Places(table)
  {
  }

  /** A phrase is no longer than the text it is found in, and as long only when it is the whole text. */
  lemma {:induction false} PhraseLength(hay: seq<string>, phrase: seq<string>, k: nat)
    requires PhraseAt(hay, phrase, k)
    ensures |Closed(phrase)| <= |Closed(hay)|
    ensures |Closed(phrase)| == |Closed(hay)| ==> phrase == hay
    decreases |hay|
  {
    if k > 0 {
      assert hay[1..][k - 1..k - 1 + |phrase|] == hay[k..k + |phrase|];
      PhraseLength(hay[1..], phrase, k - 1);
    } else if phrase != [] {
      assert hay[..|phrase|][1..] == hay[1..][..|phrase| - 1];
      PhraseLength(hay[1..], phrase[1..], 0);
      assert phrase == [phrase[0]] + phrase[1..] && hay == [hay[0]] + hay[1..];
    } else {
      ClosedShape(hay);
    }
  }

  lemma MentionLength(hay: seq<string>, phrase: seq<string>)
    requires Mentions(hay, phrase)
    ensures |Join(phrase)| <= |Join(hay)|
    ensures |Join(phrase)| == |Join(hay)| ==> phrase == hay
  {
    var k: nat :| PhraseAt(hay, phrase, k);
    PhraseLength(hay, phrase, k);
    PadIsClosed(phrase);
    PadIsClosed(hay);
  }

  lemma MentionsItself(words: seq<string>)
    ensures words != [] ==> Mentions(words, words)
  {
    assert PhraseAt(words, words, 0);
  }

  /** A place whose name is part of another place's name keeps its aliases away from every value that
      names the other one: the feeds of the two stay apart. */
  lemma ParentStaysSilent(u: Unicode, table: seq<Entry>, value: string, parent: string, child: string)
    requires child in Places(table) && Mentions(Words(u, value), Words(u, child))
    requires Mentions(Words(u, child), Words(u, parent)) && Words(u, child) != Words(u, parent)
    ensures !MostDetailed(u, table, value, parent)
  {
    MentionLength(Words(u, child), Words(u, parent));
  }

  /** For the name of a place of the table, only places of that very name are most detailed. */
  lemma OnlyItself(u: Unicode, table: seq<Entry>, value: string, place: string)
    requires value in Places(table) && Words(u, value) != []
    ensures MostDetailed(u, table, value, place) <==> place in Places(table) && Words(u, place) == Words(u, value)
  {
    hide Words, Phrase;
    MentionsItself(Words(u, value));
    forall other | Mentions(Words(u, value), Words(u, other)) {
      MentionLength(Words(u, value), Words(u, other));
    }
  }

  /** A query that has words matches a place's own name exactly when the name contains each word of the
      query, or the query mentions that name or one of the aliases filed under that name. */
  lemma OwnAliasesOnly(u: Unicode, table: seq<Entry>, value: string, query: string)
    requires Sound(u) && DistinctPlaces(table)
    requires value in Places(table) && Words(u, value) != [] && Words(u, query) != []
    ensures CampusHoursPlaceMatches(u, table, value, Some(query))
        <==> ContainsEveryWord(u, value, query)
             || exists place :: place in Places(table) && Words(u, place) == Words(u, value)
                  && NamedBy(u, table, query, place)
  {
    hide Words, NamedBy, ContainsEveryWord, CampusHoursPlaceMatches, MostDetailed;
    MatchesByWords(u, table, value, query);
    forall place {
      OnlyItself(u, table, value, place);
    }
  }

  /** Every place of the table answers to its own name and to all its aliases, unless its name has no
      letter and no digit in it: then it answers only to aliases that have none either. */
  lemma AnswersToItsNames(u: Unicode, table: seq<Entry>, e: Entry, name: string)
    requires Sound(u) && DistinctPlaces(table)
    requires e in table && (name == e.place || name in e.aliases)
    ensures CampusHoursPlaceMatches(u, table, e.place, Some(name)) <==> Words(u, e.place) != [] || Words(u, name) == []
  {
    hide Words, CampusHoursPlaceMatches, Phrase, DistinctPlaces;
    var place := e.place;
    assert IsNameOf(table, place, name) && place in Places(table);
    MatchesByWords(u, table, place, name);
    if Words(u, place) != [] {
      OnlyItself(u, table, place, place);
      MentionsItself(Words(u, name));
    } else if Words(u, name) != [] {
      WordsPlain(u, name);
      assert Words(u, name)[0] in Words(u, name);
      NothingInNoWords(u, place);
    }
  }

  lemma NothingInNoWords(u: Unicode, value: string)
    requires Words(u, value) == []
    ensures forall w :: w != "" ==> !Includes(Join(Words(u, value)), w)
    ensures forall words :: !Mentions(Words(u, value), words)
  {
  }
}
