/** A reader of JSON texts (sections 3 to 7 of RFC 8259) without white space between tokens, to read back
    what `stableStringify` prints. */
module JsonReader {
  import opened Text
  import opened Sorting
  import opened CanonicalJson

  /** A value and the rest of the text, None for a text that does not start with one. */
  type Reading<T> = Option<(T, Units)>

  function Code(c: char): (u: Unit)
    requires c < 128 as char
    ensures u == c as int
  {
    c as int
  }

  predicate StartsWith(t: Units, c: char)
    requires c < 128 as char
  {
    t != [] && t[0] == Code(c)
  }

  // ----- strings

  function HexValue(u: Unit): Option<nat> {
    if Code('0') <= u <= Code('9') then Some(u - Code('0'))
    else if Code('a') <= u <= Code('f') then Some(10 + u - Code('a'))
    else if Code('A') <= u <= Code('F') then Some(10 + u - Code('A'))
    else None
  }

  function FourHex(t: Units): Option<Unit>
    requires |t| >= 4
  {
    match (HexValue(t[0]), HexValue(t[1]), HexValue(t[2]), HexValue(t[3]))
    case (Some(a), Some(b), Some(c), Some(d)) =>
      var n := a * 4096 + b * 256 + c * 16 + d;
      if n < 0x1_0000 then Some(n) else None
    case _ => None
  }

  /** What a single letter after a backslash stands for. */
  function Unescaped(u: Unit): Option<Unit> {
    if u == Code('"') || u == Code('\\') || u == Code('/') then Some(u)
    else if u == Code('b') then Some(8)
    else if u == Code('f') then Some(12)
    else if u == Code('n') then Some(10)
    else if u == Code('r') then Some(13)
    else if u == Code('t') then Some(9)
    else None
  }

  function Prepend<T>(x: T, rest: Reading<seq<T>>): Reading<seq<T>> {
    if rest.None? then None else Some(([x] + rest.value.0, rest.value.1))
  }

  /** The units up to the closing quotation mark. */
  function ReadChars(t: Units): (r: Reading<Units>)
    ensures r.Some? ==> |r.value.1| < |t|
  {
    if t == [] then None
    else if StartsWith(t, '"') then Some(([], t[1..]))
    else if t[0] < 32 then None
    else if !StartsWith(t, '\\') then Prepend(t[0], ReadChars(t[1..]))
    else if |t| >= 6 && t[1] == Code('u') then
      if FourHex(t[2..]).None? then None else Prepend(FourHex(t[2..]).value, ReadChars(t[6..]))
    else if |t| >= 2 && Unescaped(t[1]).Some? then Prepend(Unescaped(t[1]).value, ReadChars(t[2..]))
    else None
  }

  // ----- values

  function NumberLength(t: Units): (n: nat)
    ensures n <= |t|
  {
    if t == [] || !NumberUnit(t[0]) then 0 else 1 + NumberLength(t[1..])
  }

  predicate HasPrefix(t: Units, word: string)
    requires forall i :: 0 <= i < |word| ==> word[i] < 128 as char
  {
    |t| >= |word| && forall i :: 0 <= i < |word| ==> t[i] == Code(word[i])
  }

  function ReadValue(t: Units): (r: Reading<Json>)
    ensures r.Some? ==> |r.value.1| < |t|
    decreases |t|, 1
  {
    if StartsWith(t, '"') then
      var r := ReadChars(t[1..]);
      if r.None? then None else Some((Str(r.value.0), r.value.1))
    else if StartsWith(t, '[') then
      if StartsWith(t[1..], ']') then Some((Arr([]), t[2..]))
      else
        var r := ReadItems(t[1..]);
        if r.None? then None else Some((Arr(r.value.0), r.value.1))
    else if StartsWith(t, '{') then
      if StartsWith(t[1..], '}') then Some((Obj([]), t[2..]))
      else
        var r := ReadMembers(t[1..]);
        if r.None? then None else Some((Obj(r.value.0), r.value.1))
    else if HasPrefix(t, "null") then Some((Null, t[4..]))
    else if HasPrefix(t, "true") then Some((Bool(true), t[4..]))
    else if HasPrefix(t, "false") then Some((Bool(false), t[5..]))
    else if NumberLength(t) > 0 then Some((Num(t[..NumberLength(t)]), t[NumberLength(t)..]))
    else None
  }

  /** The rest of a list after its opening bracket: a value, then a comma and more, or the closing bracket. */
  function ReadItems(t: Units): (r: Reading<seq<Json>>)
    ensures r.Some? ==> |r.value.1| < |t|
    decreases |t|, 2
  {
    var first := ReadValue(t);
    if first.None? then None
    else
      var rest := first.value.1;
      if StartsWith(rest, ']') then Some(([first.value.0], rest[1..]))
      else if StartsWith(rest, ',') then Prepend(first.value.0, ReadItems(rest[1..]))
      else None
  }

  function ReadMember(t: Units): (r: Reading<Member>)
    ensures r.Some? ==> |r.value.1| < |t|
    decreases |t|, 2
  {
    if !StartsWith(t, '"') then None
    else
      var key := ReadChars(t[1..]);
      if key.None? || !StartsWith(key.value.1, ':') then None
      else
        var value := ReadValue(key.value.1[1..]);
        if value.None? then None else Some((Member(key.value.0, value.value.0), value.value.1))
  }

  function ReadMembers(t: Units): (r: Reading<seq<Member>>)
    ensures r.Some? ==> |r.value.1| < |t|
    decreases |t|, 3
  {
    var first := ReadMember(t);
    if first.None? then None
    else
      var rest := first.value.1;
      if StartsWith(rest, '}') then Some(([first.value.0], rest[1..]))
      else if StartsWith(rest, ',') then Prepend(first.value.0, ReadMembers(rest[1..]))
      else None
  }

  // ----- the values in question

  /** The characters of numbers. */
  lemma NumberUnits(u: Unit)
    ensures NumberUnit(u) <==> u < 128 && u as char in "0123456789+-.eE"
  {
  }

  lemma OneMoreKey(ms: seq<Member>, m: Member)
    ensures DistinctKeys([])
    ensures DistinctKeys(ms + [m]) <==> DistinctKeys(ms) && forall i :: 0 <= i < |ms| ==> ms[i].key != m.key
  {
    var more := ms + [m];
    if DistinctKeys(more) {
      assert forall i :: 0 <= i < |ms| ==> more[i] == ms[i] && more[i].key != more[|ms|].key;
    }
  }

  /** All values are meant, except those with an odd number text or a key that an object has twice. */
  lemma WhichValues(v: Json)
    ensures WellFormed(v) <==>
            (v.Num? ==> v.text != [] && forall i :: 0 <= i < |v.text| ==> NumberUnit(v.text[i]))
            && (v.Arr? ==> forall x :: x in v.items ==> WellFormed(x))
            && (v.Obj? ==> DistinctKeys(v.members) && forall m :: m in v.members ==> WellFormed(m.value))
  {
    match v
    case Arr(xs) => assert forall i :: 0 <= i < |xs| ==> xs[i] in xs;
    case Obj(ms) => assert forall i :: 0 <= i < |ms| ==> ms[i] in ms;
    case _ =>
  }

  // ----- reading strings back

  lemma HexReads(d: nat)
    requires d < 16
    ensures HexValue(HexDigit(d)) == Some(d)
  {
  }

  lemma UnicodeReads(u: Unit, x: Units)
    ensures var t := UnicodeEscape(u) + x; FourHex(t[2..]) == Some(u) && t[6..] == x
  {
    hide HexDigit, HexValue;
    HexReads(u / 4096);
    HexReads(u / 256 % 16);
    HexReads(u / 16 % 16);
    HexReads(u % 16);
    HexDigits(u);
    var t := UnicodeEscape(u) + x;
    assert t[2..][0] == HexDigit(u / 4096) && t[2..][1] == HexDigit(u / 256 % 16);
    assert t[2..][2] == HexDigit(u / 16 % 16) && t[2..][3] == HexDigit(u % 16);
  }

  lemma UnitReads(u: Unit, paired: bool, x: Units)
    ensures ReadChars(EscapeUnit(u, paired) + x) == Prepend(u, ReadChars(x))
  {
    hide IsHigh, IsLow, UnicodeEscape, FourHex;
    var e := EscapeUnit(u, paired);
    var t := e + x;
    UnicodeStarts(u);
    if e == [u] {
      assert t[1..] == x;
    } else if e == UnicodeEscape(u) {
      UnicodeReads(u, x);
    } else {
      assert t[2..] == x;
    }
  }

  lemma UnicodeStarts(u: Unit)
    ensures |UnicodeEscape(u)| == 6 && UnicodeEscape(u)[0] == Code('\\') && UnicodeEscape(u)[1] == Code('u')
  {
  }

  lemma {:induction false} EscapedReads(s: Units, p: bool, r: Units)
    ensures ReadChars(Escape(s, p) + ([QUOTE] + r)) == Some((s, r))
  {
    hide EscapeUnit, IsHigh, IsLow;
    if s == [] {
      assert Escape(s, p) + ([QUOTE] + r) == [QUOTE] + r && ([QUOTE] + r)[1..] == r;
    } else {
      var paired := (IsHigh(s[0]) && |s| > 1 && IsLow(s[1])) || (IsLow(s[0]) && p);
      var more := Escape(s[1..], IsHigh(s[0]));
      EscapedReads(s[1..], IsHigh(s[0]), r);
      UnitReads(s[0], paired, more + ([QUOTE] + r));
      assert Escape(s, p) + ([QUOTE] + r) == EscapeUnit(s[0], paired) + (more + ([QUOTE] + r));
      assert s == [s[0]] + s[1..];
    }
  }

  /** A printed string reads back as the string. */
  lemma QuoteReads(s: Units, r: Units)
    ensures var t := Quote(s) + r; StartsWith(t, '"') && ReadChars(t[1..]) == Some((s, r))
  {
    EscapedReads(s, false, r);
    assert (Quote(s) + r)[1..] == Escape(s, false) + ([QUOTE] + r);
  }

  // ----- reading values back

  lemma {:induction false} NumberReads(t: Units, r: Units)
    requires (forall i :: 0 <= i < |t| ==> NumberUnit(t[i])) && Stops(r)
    ensures NumberLength(t + r) == |t|
  {
    if t == [] {
      assert t + r == r;
    } else {
      NumberReads(t[1..], r);
      assert (t + r)[1..] == t[1..] + r;
    }
  }

  lemma SimpleReads(le: KeyOrder, v: Json, r: Units)
    requires WellFormed(v) && Stops(r) && !v.Arr? && !v.Obj?
    ensures ReadValue(StableStringify(le, v) + r) == Some((v, r))
  {
    hide NumberLength, ReadChars;
    var t := StableStringify(le, v) + r;
    match v
    case Str(s) => QuoteReads(s, r);
    case Num(n) =>
      NumberReads(n, r);
      assert t[0] == n[0] && t[..|n|] == n && t[|n|..] == r;
    case Null => assert t[4..] == r;
    case Bool(b) => assert t[if b then 4 else 5..] == r;
  }

  predicate SamePlace(xs: seq<Json>, ys: seq<Json>) {
    |xs| == |ys| && forall i :: 0 <= i < |xs| ==> Equivalent(xs[i], ys[i])
  }

  predicate SameMembers(ms: seq<Member>, ns: seq<Member>) {
    |ms| == |ns| && forall i :: 0 <= i < |ms| ==> ms[i].key == ns[i].key && Equivalent(ms[i].value, ns[i].value)
  }

  lemma {:induction false} ItemsRead(le: KeyOrder, v: Json, xs: seq<Json>, r: Units) returns (ys: seq<Json>)
    requires xs != [] && forall x :: x in xs ==> x < v && WellFormed(x)
    ensures SamePlace(xs, ys)
    ensures ReadItems(Join(Texts(le, xs)) + [RBRACKET] + r) == Some((ys, r))
    decreases v, 0, |xs|
  {
    hide StableStringify, Join, Texts, WellFormed, Equivalent, ReadValue;
    JoinItems(le, xs, r);
    assert xs[0] in xs;
    var after := AfterFirst(le, xs, r);
    var first := ValueReads(le, xs[0], after);
    if |xs| == 1 {
      assert after[1..] == r;
      ys := [first];
    } else {
      TailWithin(xs);
      var rest := ItemsRead(le, v, xs[1..], r);
      assert after[1..] == Join(Texts(le, xs[1..])) + [RBRACKET] + r;
      ys := [first] + rest;
    }
  }

  lemma {:induction false} MembersRead(le: KeyOrder, v: Json, ms: seq<Member>, r: Units) returns (ns: seq<Member>)
    requires ms != [] && forall m :: m in ms ==> m.value < v && WellFormed(m.value)
    ensures SameMembers(ms, ns)
    ensures ReadMembers(Join(MemberTexts(le, ms)) + [RBRACE] + r) == Some((ns, r))
    decreases v, 0, |ms|
  {
    hide StableStringify, Join, MemberTexts, WellFormed, Equivalent, ReadValue, ReadChars, Quote;
    JoinMembers(le, ms, r);
    assert ms[0] in ms;
    var after := AfterMember(le, ms, r);
    var value := ValueReads(le, ms[0].value, after);
    var body := StableStringify(le, ms[0].value) + after;
    QuoteReads(ms[0].key, [COLON] + body);
    assert ([COLON] + body)[1..] == body;
    var first := Member(ms[0].key, value);
    if |ms| == 1 {
      assert after[1..] == r;
      ns := [first];
    } else {
      var rest := MembersRead(le, v, ms[1..], r);
      assert after[1..] == Join(MemberTexts(le, ms[1..])) + [RBRACE] + r;
      ns := [first] + rest;
    }
  }

  lemma {:induction false} ValueReads(le: KeyOrder, v: Json, r: Units) returns (w: Json)
    requires WellFormed(v) && Stops(r)
    ensures Equivalent(v, w) && ReadValue(StableStringify(le, v) + r) == Some((w, r))
    decreases v, 1
  {
    match v
    case Arr(xs) => w := ArrayReads(le, v, r);
    case Obj(ms) => w := ObjectReads(le, v, r);
    case _ =>
      SimpleReads(le, v, r);
      w := v;
  }

  lemma {:induction false} ArrayReads(le: KeyOrder, v: Json, r: Units) returns (w: Json)
    requires v.Arr? && WellFormed(v) && Stops(r)
    ensures Equivalent(v, w) && ReadValue(StableStringify(le, v) + r) == Some((w, r))
    decreases v, 0
  {
    hide StableStringify, Join, Texts, ReadItems;
    var xs := v.items;
    ArrayText(le, xs);
    var t := StableStringify(le, v) + r;
    var inner := Join(Texts(le, xs)) + [RBRACKET] + r;
    assert t == [LBRACKET] + inner && t[1..] == inner;
    FirstOfItems(le, xs, r);
    if xs == [] {
      JoinItems(le, xs, r);
      assert inner == [RBRACKET] + r && t[2..] == r;
      w := Arr([]);
    } else {
      var ys := ItemsRead(le, v, xs, r);
      w := Arr(ys);
    }
  }

  lemma {:induction false} ObjectReads(le: KeyOrder, v: Json, r: Units) returns (w: Json)
    requires v.Obj? && WellFormed(v) && Stops(r)
    ensures Equivalent(v, w) && ReadValue(StableStringify(le, v) + r) == Some((w, r))
    decreases v, 0
  {
    hide StableStringify, Join, MemberTexts, ReadMembers, Sorted, Equivalent;
    var ms := Sorted(le, v.members);
    ObjectText(le, v.members);
    var t := StableStringify(le, v) + r;
    var inner := Join(MemberTexts(le, ms)) + [RBRACE] + r;
    assert t == [LBRACE] + inner && t[1..] == inner;
    FirstOfMembers(le, ms, r);
    if ms == [] {
      JoinMembers(le, ms, r);
      assert inner == [RBRACE] + r && t[2..] == r;
      w := Obj([]);
      ObjectsMatch(v.members, []);
    } else {
      SortedParts(le, v);
      var ns := MembersRead(le, v, ms, r);
      w := Obj(ns);
      MembersMatch(le, v.members, ns);
    }
  }

  /** Members read in the printed order are those of the object in its own order. */
  lemma MembersMatch(le: KeyOrder, ms: seq<Member>, ns: seq<Member>)
    requires SameMembers(Sorted(le, ms), ns)
    ensures Equivalent(Obj(ms), Obj(ns))
  {
    hide Equivalent, HasMatch, Sorted;
    var s := Sorted(le, ms);
    SameElements(s, ms);
    forall i | 0 <= i < |ms| ensures HasMatch(ms[i], ns) {
      assert ms[i] in ms;
      MatchFound(ms[i], s, ns, ns);
    }
    ObjectsMatch(ms, ns);
  }

  /** Every value that `stableStringify` prints is read back, up to the order of object keys, with
      nothing left over. */
  lemma PrintedReadsBack(le: KeyOrder, v: Json)
    requires WellFormed(v)
    ensures var r := ReadValue(StableStringify(le, v));
            r.Some? && r.value.1 == [] && Equivalent(v, r.value.0)
  {
    hide StableStringify, ReadValue, Equivalent;
    var w := ValueReads(le, v, []);
    assert StableStringify(le, v) + [] == StableStringify(le, v);
  }
}
