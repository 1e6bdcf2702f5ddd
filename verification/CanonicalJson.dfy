/** `stableStringify`: JSON values printed with the keys of every object in one order.

    Texts are sequences of UTF-16 code units, as JavaScript strings are.  A number is carried by
    the text that Number-to-string gives it, which is a different one for every number. */
module CanonicalJson {
  import opened Sorting

  type Unit = n: nat | n < 0x1_0000
  type Units = seq<Unit>

  datatype Json =
    | Null
    | Bool(b: bool)
    | Num(text: Units)
    | Str(s: Units)
    | Arr(items: seq<Json>)
    | Obj(members: seq<Member>)

  datatype Member = Member(key: Units, value: Json)

  const QUOTE: Unit := 34
  const COMMA: Unit := 44
  const COLON: Unit := 58
  const BACKSLASH: Unit := 92
  const LBRACKET: Unit := 91
  const RBRACKET: Unit := 93
  const LBRACE: Unit := 123
  const RBRACE: Unit := 125
  const NULL_TEXT: Units := [110, 117, 108, 108]
  const TRUE_TEXT: Units := [116, 114, 117, 101]
  const FALSE_TEXT: Units := [102, 97, 108, 115, 101]

  /** Digits, signs, the decimal point and the exponent marks. */
  predicate NumberUnit(u: Unit) {
    48 <= u <= 57 || u == 43 || u == 45 || u == 46 || u == 69 || u == 101
  }

  predicate NumberText(t: Units) {
    t != [] && forall i :: 0 <= i < |t| ==> NumberUnit(t[i])
  }

  predicate DistinctKeys(ms: seq<Member>) {
    forall i, j :: 0 <= i < j < |ms| ==> ms[i].key != ms[j].key
  }

  /** Numbers carry number texts and no object has a key twice. */
  predicate WellFormed(v: Json) {
    match v
    case Num(t) => NumberText(t)
    case Arr(items) => forall i :: 0 <= i < |items| ==> WellFormed(items[i])
    case Obj(ms) => DistinctKeys(ms) && forall i :: 0 <= i < |ms| ==> WellFormed(ms[i].value)
    case _ => true
  }

  /** Equal up to the order in which the members of objects are listed. */
  predicate Equivalent(v: Json, w: Json) {
    match v
    case Arr(xs) =>
      w.Arr? && |xs| == |w.items| && forall i :: 0 <= i < |xs| ==> Equivalent(xs[i], w.items[i])
    case Obj(ms) =>
      w.Obj? && |ms| == |w.members| && forall i :: 0 <= i < |ms| ==> HasMatch(ms[i], w.members)
    case _ => v == w
  }

  predicate HasMatch(m: Member, ns: seq<Member>) {
    exists j :: 0 <= j < |ns| && m.key == ns[j].key && Equivalent(m.value, ns[j].value)
  }

  // ----- strings

  predicate IsHigh(u: Unit) { 0xD800 <= u <= 0xDBFF }
  predicate IsLow(u: Unit) { 0xDC00 <= u <= 0xDFFF }

  function HexDigit(d: nat): Unit
    requires d < 16
  {
    if d < 10 then 48 + d else 87 + d
  }

  function UnicodeEscape(u: Unit): Units {
    [BACKSLASH, 117, HexDigit(u / 4096), HexDigit(u / 256 % 16), HexDigit(u / 16 % 16), HexDigit(u % 16)]
  }

  /** One code unit inside a string literal; `paired` says that a surrogate has its partner. */
  function EscapeUnit(u: Unit, paired: bool): Units {
    if u == QUOTE || u == BACKSLASH then [BACKSLASH, u]
    else if u == 8 then [BACKSLASH, 98]
    else if u == 9 then [BACKSLASH, 116]
    else if u == 10 then [BACKSLASH, 110]
    else if u == 12 then [BACKSLASH, 102]
    else if u == 13 then [BACKSLASH, 114]
    else if u < 32 || ((IsHigh(u) || IsLow(u)) && !paired) then UnicodeEscape(u)
    else [u]
  }

  /** The units of a string literal between its quotes; `afterHigh` says that a high surrogate came before. */
  function Escape(s: Units, afterHigh: bool): Units {
    if s == [] then []
    else
      var paired := (IsHigh(s[0]) && |s| > 1 && IsLow(s[1])) || (IsLow(s[0]) && afterHigh);
      EscapeUnit(s[0], paired) + Escape(s[1..], IsHigh(s[0]))
  }

  /** JSON.stringify of a string. */
  function Quote(s: Units): Units {
    [QUOTE] + Escape(s, false) + [QUOTE]
  }

  // ----- values

  function Join(texts: seq<Units>): Units {
    if texts == [] then []
    else if |texts| == 1 then texts[0]
    else texts[0] + [COMMA] + Join(texts[1..])
  }

  type KeyOrder = (Units, Units) -> bool

  /** `localeCompare` taken as a total order on keys. */
  ghost predicate TotalOrder(le: KeyOrder) {
    TotalPreorder(le) && forall a, b :: le(a, b) && le(b, a) ==> a == b
  }

  function ByKey(le: KeyOrder): (Member, Member) -> bool {
    (m: Member, n: Member) => le(m.key, n.key)
  }

  function Sorted(le: KeyOrder, ms: seq<Member>): (r: seq<Member>)
    ensures multiset(r) == multiset(ms)
    ensures |r| == |ms|
    ensures forall i :: 0 <= i < |r| ==> r[i] in ms
  {
    var r := SortBy(ByKey(le), ms);
    SameElements(r, ms);
    assert forall i :: 0 <= i < |r| ==> r[i] in r;
    r
  }

  function StableStringify(le: KeyOrder, v: Json): Units
    decreases v
  {
    match v
    case Null => NULL_TEXT
    case Bool(b) => if b then TRUE_TEXT else FALSE_TEXT
    case Num(t) => t
    case Str(s) => Quote(s)
    case Arr(items) =>
      [LBRACKET]
      + Join(seq(|items|, i requires 0 <= i < |items| => StableStringify(le, items[i])))
      + [RBRACKET]
    case Obj(ms) =>
      var sorted := Sorted(le, ms);
      [LBRACE]
      + Join(seq(|sorted|, i requires 0 <= i < |sorted| =>
          Quote(sorted[i].key) + [COLON] + StableStringify(le, sorted[i].value)))
      + [RBRACE]
  }

  // ----- string literals end where they say and denote one string

  lemma Extend(h: Units, x: Units, k: Units, y: Units)
    requires h + x == k + y && |h| == |k|
    ensures h == k && x == y
  {
    assert (h + x)[..|h|] == h && (h + x)[|h|..] == x;
    assert (k + y)[..|k|] == k && (k + y)[|k|..] == y;
  }

  lemma HexUnique(u: Unit, v: Unit)
    requires UnicodeEscape(u) == UnicodeEscape(v)
    ensures u == v
  {
    hide HexDigit;
    var a, b := UnicodeEscape(u), UnicodeEscape(v);
    assert a[2] == b[2] && a[3] == b[3] && a[4] == b[4] && a[5] == b[5];
    HexDigitUnique(u / 4096, v / 4096);
    HexDigitUnique(u / 256 % 16, v / 256 % 16);
    HexDigitUnique(u / 16 % 16, v / 16 % 16);
    HexDigitUnique(u % 16, v % 16);
    HexDigits(u);
    HexDigits(v);
  }

  lemma HexDigitUnique(d: nat, e: nat)
    requires d < 16 && e < 16
    ensures HexDigit(d) == HexDigit(e) <==> d == e
  {
  }

  lemma HexDigits(u: Unit)
    ensures u == u / 4096 * 4096 + u / 256 % 16 * 256 + u / 16 % 16 * 16 + u % 16
  {
    var a := u / 16;
    var b := a / 16;
    assert u / 256 == b && u / 4096 == b / 16;
  }

  lemma EscapeShape(u: Unit, paired: bool)
    ensures var e := EscapeUnit(u, paired);
            && e != [] && e[0] != QUOTE
            && (e[0] == BACKSLASH ==> |e| >= 2 && |e| == if e[1] == 117 then 6 else 2)
            && (e[0] != BACKSLASH ==> e == [u])
  {
  }

  lemma EscapeUnitUnique(u: Unit, a: bool, x: Units, v: Unit, b: bool, y: Units)
    requires EscapeUnit(u, a) + x == EscapeUnit(v, b) + y
    ensures u == v && x == y
  {
    var e, f := EscapeUnit(u, a), EscapeUnit(v, b);
    EscapeShape(u, a);
    EscapeShape(v, b);
    assert (e + x)[0] == e[0] && (f + y)[0] == f[0];
    if e[0] == BACKSLASH {
      assert (e + x)[1] == e[1] && (f + y)[1] == f[1];
    }
    Extend(e, x, f, y);
    if |e| == 6 { HexUnique(u, v); }
  }

  lemma {:induction false} EscapeUnique(s: Units, p: bool, r: Units, t: Units, o: bool, q: Units)
    requires Escape(s, p) + [QUOTE] + r == Escape(t, o) + [QUOTE] + q
    ensures s == t && r == q
  {
    hide EscapeUnit, IsHigh, IsLow;
    var x, y := Escape(s, p) + [QUOTE] + r, Escape(t, o) + [QUOTE] + q;
    if s == [] || t == [] {
      EscapeStarts(s, p, r);
      EscapeStarts(t, o, q);
      Extend([QUOTE], r, [QUOTE], q);
    } else {
      var a := (IsHigh(s[0]) && |s| > 1 && IsLow(s[1])) || (IsLow(s[0]) && p);
      var b := (IsHigh(t[0]) && |t| > 1 && IsLow(t[1])) || (IsLow(t[0]) && o);
      var xs, ys := Escape(s[1..], IsHigh(s[0])), Escape(t[1..], IsHigh(t[0]));
      assert x == EscapeUnit(s[0], a) + (xs + [QUOTE] + r);
      assert y == EscapeUnit(t[0], b) + (ys + [QUOTE] + q);
      EscapeUnitUnique(s[0], a, xs + [QUOTE] + r, t[0], b, ys + [QUOTE] + q);
      EscapeUnique(s[1..], IsHigh(s[0]), r, t[1..], IsHigh(t[0]), q);
      assert s == [s[0]] + s[1..] && t == [t[0]] + t[1..];
    }
  }

  lemma EscapeStarts(s: Units, p: bool, r: Units)
    ensures (Escape(s, p) + [QUOTE] + r)[0] == QUOTE <==> s == []
    ensures s == [] ==> Escape(s, p) + [QUOTE] + r == [QUOTE] + r
  {
    if s != [] {
      var a := (IsHigh(s[0]) && |s| > 1 && IsLow(s[1])) || (IsLow(s[0]) && p);
      EscapeShape(s[0], a);
    }
  }

  /** A string literal followed by anything determines the string and what follows. */
  lemma QuoteUnique(s: Units, r: Units, t: Units, q: Units)
    requires Quote(s) + r == Quote(t) + q
    ensures s == t && r == q
  {
    assert Quote(s) + r == [QUOTE] + (Escape(s, false) + [QUOTE] + r);
    assert Quote(t) + q == [QUOTE] + (Escape(t, false) + [QUOTE] + q);
    Extend([QUOTE], Escape(s, false) + [QUOTE] + r, [QUOTE], Escape(t, false) + [QUOTE] + q);
    EscapeUnique(s, false, r, t, false, q);
  }

  // ----- texts of lists

  function Texts(le: KeyOrder, vs: seq<Json>): seq<Units> {
    seq(|vs|, i requires 0 <= i < |vs| => StableStringify(le, vs[i]))
  }

  function MemberText(le: KeyOrder, m: Member): Units {
    Quote(m.key) + [COLON] + StableStringify(le, m.value)
  }

  function MemberTexts(le: KeyOrder, ms: seq<Member>): seq<Units> {
    seq(|ms|, i requires 0 <= i < |ms| => MemberText(le, ms[i]))
  }

  lemma ArrayText(le: KeyOrder, vs: seq<Json>)
    ensures StableStringify(le, Arr(vs)) == [LBRACKET] + Join(Texts(le, vs)) + [RBRACKET]
  {
    assert seq(|vs|, i requires 0 <= i < |vs| => StableStringify(le, Arr(vs).items[i])) == Texts(le, vs);
  }

  lemma ObjectText(le: KeyOrder, ms: seq<Member>)
    ensures StableStringify(le, Obj(ms)) == [LBRACE] + Join(MemberTexts(le, Sorted(le, ms))) + [RBRACE]
  {
    var sorted := Sorted(le, ms);
    assert seq(|sorted|, i requires 0 <= i < |sorted| =>
                 Quote(sorted[i].key) + [COLON] + StableStringify(le, sorted[i].value))
        == MemberTexts(le, sorted);
  }

  /** What may follow a value: nothing, or a unit that cannot continue a number. */
  predicate Stops(r: Units) {
    r == [] || !NumberUnit(r[0])
  }

  function Opener(v: Json): Unit
    requires WellFormed(v)
  {
    match v
    case Null => 110
    case Bool(b) => if b then 116 else 102
    case Num(t) => t[0]
    case Str(_) => QUOTE
    case Arr(_) => LBRACKET
    case Obj(_) => LBRACE
  }

  lemma StartsWithOpener(le: KeyOrder, v: Json)
    requires WellFormed(v)
    ensures StableStringify(le, v) != [] && StableStringify(le, v)[0] == Opener(v)
  {
  }

  lemma NumberUnique(s: Units, r: Units, t: Units, q: Units)
    requires NumberText(s) && NumberText(t) && Stops(r) && Stops(q)
    requires s + r == t + q
    ensures s == t && r == q
  {
    assert |s| == |t| by {
      if |s| < |t| { Overhang(s, r, t, q); }
      if |t| < |s| { Overhang(t, q, s, r); }
    }
    Extend(s, r, t, q);
  }

  lemma Overhang(s: Units, r: Units, t: Units, q: Units)
    requires s + r == t + q && |s| < |t|
    ensures r != [] && r[0] == t[|s|]
  {
    assert (s + r)[|s|] == r[0] && (t + q)[|s|] == t[|s|];
  }

  // ----- equal texts come from equivalent values

  /** A printed value followed by something that does not continue a number determines the value,
      up to key order, and what follows it. */
  lemma {:induction false} TextDetermines(le: KeyOrder, v: Json, r: Units, w: Json, q: Units)
    requires WellFormed(v) && WellFormed(w) && Stops(r) && Stops(q)
    requires StableStringify(le, v) + r == StableStringify(le, w) + q
    ensures Equivalent(v, w) && r == q
    decreases v, 2
  {
    hide StableStringify, WellFormed, NumberText, NumberUnit, Join, Escape;
    SameConstructor(le, v, r, w, q);
    match v
    case Num(s) => NumberCase(le, s, r, w.text, q);
    case Str(s) => StringCase(le, s, r, w.s, q);
    case Arr(xs) => ArrayCase(le, v, r, w.items, q);
    case Obj(ms) => ObjectCase(le, v, r, w.members, q);
    case _ => Extend(StableStringify(le, v), r, StableStringify(le, w), q);
  }

  lemma SameConstructor(le: KeyOrder, v: Json, r: Units, w: Json, q: Units)
    requires WellFormed(v) && WellFormed(w)
    requires StableStringify(le, v) + r == StableStringify(le, w) + q
    ensures v.Num? == w.Num? && v.Str? == w.Str? && v.Arr? == w.Arr? && v.Obj? == w.Obj?
    ensures v.Null? || v.Bool? ==> v == w
  {
    hide StableStringify;
    StartsWithOpener(le, v);
    StartsWithOpener(le, w);
    assert (StableStringify(le, v) + r)[0] == Opener(v);
    assert (StableStringify(le, w) + q)[0] == Opener(w);
  }

  lemma NumberCase(le: KeyOrder, s: Units, r: Units, t: Units, q: Units)
    requires WellFormed(Num(s)) && WellFormed(Num(t)) && Stops(r) && Stops(q)
    requires StableStringify(le, Num(s)) + r == StableStringify(le, Num(t)) + q
    ensures s == t && r == q
  {
    NumberUnique(s, r, t, q);
  }

  lemma StringCase(le: KeyOrder, s: Units, r: Units, t: Units, q: Units)
    requires StableStringify(le, Str(s)) + r == StableStringify(le, Str(t)) + q
    ensures s == t && r == q
  {
    QuoteUnique(s, r, t, q);
  }

  lemma {:induction false} ArrayCase(le: KeyOrder, v: Json, r: Units, ys: seq<Json>, q: Units)
    requires v.Arr? && WellFormed(v) && WellFormed(Arr(ys))
    requires StableStringify(le, v) + r == StableStringify(le, Arr(ys)) + q
    ensures Equivalent(v, Arr(ys)) && r == q
    decreases v, 1
  {
    hide StableStringify, Join, Texts;
    var a, b := Join(Texts(le, v.items)), Join(Texts(le, ys));
    ArrayText(le, v.items);
    ArrayText(le, ys);
    assert StableStringify(le, v) + r == [LBRACKET] + (a + [RBRACKET] + r);
    assert StableStringify(le, Arr(ys)) + q == [LBRACKET] + (b + [RBRACKET] + q);
    Extend([LBRACKET], a + [RBRACKET] + r, [LBRACKET], b + [RBRACKET] + q);
    ItemsDetermined(le, v, v.items, r, ys, q);
  }

  lemma {:induction false} ObjectCase(le: KeyOrder, v: Json, r: Units, ns: seq<Member>, q: Units)
    requires v.Obj? && WellFormed(v) && WellFormed(Obj(ns))
    requires StableStringify(le, v) + r == StableStringify(le, Obj(ns)) + q
    ensures Equivalent(v, Obj(ns)) && r == q
    decreases v, 1
  {
    hide StableStringify, Join, MemberTexts, Equivalent, Sorted;
    var s, t := Sorted(le, v.members), Sorted(le, ns);
    var a, b := Join(MemberTexts(le, s)), Join(MemberTexts(le, t));
    ObjectText(le, v.members);
    ObjectText(le, ns);
    assert StableStringify(le, v) + r == [LBRACE] + (a + [RBRACE] + r);
    assert StableStringify(le, Obj(ns)) + q == [LBRACE] + (b + [RBRACE] + q);
    Extend([LBRACE], a + [RBRACE] + r, [LBRACE], b + [RBRACE] + q);
    SortedParts(le, v);
    SortedParts(le, Obj(ns));
    MembersDetermined(le, v, s, r, t, q);
    SortedMatch(le, v.members, ns);
  }

  lemma SortedParts(le: KeyOrder, v: Json)
    requires v.Obj? && WellFormed(v)
    ensures forall x :: x in Sorted(le, v.members) ==> x.value < v && WellFormed(x.value)
  {
    var s := Sorted(le, v.members);
    forall x | x in s ensures x.value < v && WellFormed(x.value) {
      var i :| 0 <= i < |s| && s[i] == x;
      assert x in v.members;
    }
  }

  lemma {:induction false} ItemsDetermined(le: KeyOrder, v: Json, xs: seq<Json>, r: Units, ys: seq<Json>, q: Units)
    requires forall x :: x in xs ==> x < v && WellFormed(x)
    requires forall y :: y in ys ==> WellFormed(y)
    requires Join(Texts(le, xs)) + [RBRACKET] + r == Join(Texts(le, ys)) + [RBRACKET] + q
    ensures |xs| == |ys| && r == q
    ensures forall i :: 0 <= i < |xs| ==> Equivalent(xs[i], ys[i])
    decreases v, 0, |xs|
  {
    hide StableStringify, Join, Texts, WellFormed, Equivalent;
    JoinItems(le, xs, r);
    JoinItems(le, ys, q);
    FirstOfItems(le, xs, r);
    FirstOfItems(le, ys, q);
    if xs == [] || ys == [] {
      Extend([RBRACKET], r, [RBRACKET], q);
    } else {
      assert xs[0] in xs && ys[0] in ys;
      var a, b := AfterFirst(le, xs, r), AfterFirst(le, ys, q);
      TextDetermines(le, xs[0], a, ys[0], b);
      if |xs| == 1 || |ys| == 1 {
        Extend([RBRACKET], r, [RBRACKET], q);
      } else {
        Extend([COMMA], a[1..], [COMMA], b[1..]);
        TailWithin(xs);
        TailWithin(ys);
        ItemsDetermined(le, v, xs[1..], r, ys[1..], q);
      }
    }
  }

  lemma TailWithin(xs: seq<Json>)
    requires xs != []
    ensures forall x :: x in xs[1..] ==> x in xs
  {
  }

  lemma FirstOfItems(le: KeyOrder, xs: seq<Json>, r: Units)
    requires forall x :: x in xs ==> WellFormed(x)
    ensures (Join(Texts(le, xs)) + [RBRACKET] + r)[0] == RBRACKET <==> xs == []
  {
    hide StableStringify, Join, Texts;
    JoinItems(le, xs, r);
    if xs != [] {
      assert xs[0] in xs;
      StartsWithOpener(le, xs[0]);
      OpenerIsNotCloser(xs[0]);
    }
  }

  lemma OpenerIsNotCloser(v: Json)
    requires WellFormed(v)
    ensures Opener(v) != RBRACKET
  {
  }

  function AfterFirst(le: KeyOrder, xs: seq<Json>, r: Units): Units
    requires xs != []
  {
    if |xs| == 1 then [RBRACKET] + r else [COMMA] + (Join(Texts(le, xs[1..])) + [RBRACKET] + r)
  }

  lemma JoinItems(le: KeyOrder, xs: seq<Json>, r: Units)
    ensures Join(Texts(le, xs)) + [RBRACKET] + r
            == if xs == [] then [RBRACKET] + r else StableStringify(le, xs[0]) + AfterFirst(le, xs, r)
  {
    if xs != [] { assert Texts(le, xs)[1..] == Texts(le, xs[1..]); }
  }

  lemma {:induction false} MembersDetermined(le: KeyOrder, v: Json, xs: seq<Member>, r: Units,
                                             ys: seq<Member>, q: Units)
    requires forall x :: x in xs ==> x.value < v && WellFormed(x.value)
    requires forall y :: y in ys ==> WellFormed(y.value)
    requires Join(MemberTexts(le, xs)) + [RBRACE] + r == Join(MemberTexts(le, ys)) + [RBRACE] + q
    ensures |xs| == |ys| && r == q
    ensures forall i :: 0 <= i < |xs| ==> xs[i].key == ys[i].key && Equivalent(xs[i].value, ys[i].value)
    decreases v, 0, |xs|
  {
    hide *;
    FirstOfMembers(le, xs, r);
    FirstOfMembers(le, ys, q);
    if xs == [] || ys == [] {
      JoinMembers(le, xs, r);
      JoinMembers(le, ys, q);
      Extend([RBRACE], r, [RBRACE], q);
    } else {
      assert xs[0] in xs && ys[0] in ys;
      FirstKeyDetermined(le, xs, r, ys, q);
      TextDetermines(le, xs[0].value, AfterMember(le, xs, r), ys[0].value, AfterMember(le, ys, q));
      RestDetermined(le, xs, r, ys, q);
      if |xs| > 1 {
        MembersDetermined(le, v, xs[1..], r, ys[1..], q);
      }
    }
  }

  lemma FirstKeyDetermined(le: KeyOrder, xs: seq<Member>, r: Units, ys: seq<Member>, q: Units)
    requires xs != [] && ys != []
    requires Join(MemberTexts(le, xs)) + [RBRACE] + r == Join(MemberTexts(le, ys)) + [RBRACE] + q
    ensures xs[0].key == ys[0].key
    ensures StableStringify(le, xs[0].value) + AfterMember(le, xs, r)
            == StableStringify(le, ys[0].value) + AfterMember(le, ys, q)
    ensures Stops(AfterMember(le, xs, r)) && Stops(AfterMember(le, ys, q))
  {
    hide StableStringify, Join, MemberTexts, Quote;
    JoinMembers(le, xs, r);
    JoinMembers(le, ys, q);
    var c := StableStringify(le, xs[0].value) + AfterMember(le, xs, r);
    var d := StableStringify(le, ys[0].value) + AfterMember(le, ys, q);
    QuoteUnique(xs[0].key, [COLON] + c, ys[0].key, [COLON] + d);
    Extend([COLON], c, [COLON], d);
  }

  lemma RestDetermined(le: KeyOrder, xs: seq<Member>, r: Units, ys: seq<Member>, q: Units)
    requires xs != [] && ys != [] && AfterMember(le, xs, r) == AfterMember(le, ys, q)
    ensures |xs| == 1 <==> |ys| == 1
    ensures |xs| == 1 ==> r == q
    ensures |xs| > 1 ==> Join(MemberTexts(le, xs[1..])) + [RBRACE] + r == Join(MemberTexts(le, ys[1..])) + [RBRACE] + q
  {
    hide Join, MemberTexts;
    var a, b := AfterMember(le, xs, r), AfterMember(le, ys, q);
    assert a[0] == RBRACE <==> |xs| == 1;
    assert b[0] == RBRACE <==> |ys| == 1;
    if |xs| == 1 {
      Extend([RBRACE], r, [RBRACE], q);
    } else {
      Extend([COMMA], a[1..], [COMMA], b[1..]);
    }
  }

  lemma FirstOfMembers(le: KeyOrder, xs: seq<Member>, r: Units)
    ensures (Join(MemberTexts(le, xs)) + [RBRACE] + r)[0] == RBRACE <==> xs == []
  {
    hide StableStringify, Join, MemberTexts;
    JoinMembers(le, xs, r);
  }

  function AfterMember(le: KeyOrder, xs: seq<Member>, r: Units): Units
    requires xs != []
  {
    if |xs| == 1 then [RBRACE] + r else [COMMA] + (Join(MemberTexts(le, xs[1..])) + [RBRACE] + r)
  }

  lemma JoinMembers(le: KeyOrder, xs: seq<Member>, r: Units)
    ensures Join(MemberTexts(le, xs)) + [RBRACE] + r
            == if xs == [] then [RBRACE] + r
               else Quote(xs[0].key) + ([COLON] + (StableStringify(le, xs[0].value) + AfterMember(le, xs, r)))
  {
    hide StableStringify, Quote;
    if xs != [] {
      var k, t := Quote(xs[0].key), StableStringify(le, xs[0].value);
      var texts := MemberTexts(le, xs);
      assert texts[0] == k + [COLON] + t && texts[1..] == MemberTexts(le, xs[1..]);
      if |xs| == 1 {
        assert k + [COLON] + t + [RBRACE] + r == k + ([COLON] + (t + ([RBRACE] + r)));
      } else {
        var j := Join(texts[1..]);
        assert k + [COLON] + t + [COMMA] + j + [RBRACE] + r == k + ([COLON] + (t + ([COMMA] + (j + [RBRACE] + r))));
      }
    }
  }

  lemma MatchFound(m: Member, s: seq<Member>, t: seq<Member>, ns: seq<Member>)
    requires m in s && |s| == |t|
    requires forall i :: 0 <= i < |s| ==> s[i].key == t[i].key && Equivalent(s[i].value, t[i].value)
    requires forall i :: 0 <= i < |t| ==> t[i] in ns
    ensures HasMatch(m, ns)
  {
    hide Equivalent;
    var k :| 0 <= k < |s| && s[k] == m;
    var j :| 0 <= j < |ns| && ns[j] == t[k];
  }

  lemma ObjectsMatch(ms: seq<Member>, ns: seq<Member>)
    requires |ms| == |ns|
    ensures Equivalent(Obj(ms), Obj(ns)) <==> forall i :: 0 <= i < |ms| ==> HasMatch(ms[i], ns)
  {
  }

  /** Members that agree position by position after sorting agree as unordered lists. */
  lemma SortedMatch(le: KeyOrder, ms: seq<Member>, ns: seq<Member>)
    requires |ms| == |ns|
    requires var s, t := Sorted(le, ms), Sorted(le, ns);
             forall i :: 0 <= i < |s| ==> s[i].key == t[i].key && Equivalent(s[i].value, t[i].value)
    ensures Equivalent(Obj(ms), Obj(ns))
  {
    hide Equivalent, HasMatch, Sorted;
    var s, t := Sorted(le, ms), Sorted(le, ns);
    SameElements(s, ms);
    forall i | 0 <= i < |ms| ensures HasMatch(ms[i], ns) {
      assert ms[i] in ms;
      MatchFound(ms[i], s, t, ns);
    }
    ObjectsMatch(ms, ns);
  }

  // ----- equivalent values have equal texts

  function Keys(ms: seq<Member>): seq<Units> {
    seq(|ms|, i requires 0 <= i < |ms| => ms[i].key)
  }

  function KeyLess(le: KeyOrder): (Units, Units) -> bool {
    (a: Units, b: Units) => le(a, b) && a != b
  }

  lemma ByKeyTotal(le: KeyOrder)
    requires TotalOrder(le)
    ensures TotalPreorder(ByKey(le))
  {
    var byKey := ByKey(le);
    forall a, b ensures byKey(a, b) || byKey(b, a) { assert le(a.key, b.key) || le(b.key, a.key); }
    forall a, b, c | byKey(a, b) && byKey(b, c) ensures byKey(a, c) { assert le(a.key, b.key) && le(b.key, c.key); }
  }

  lemma SameKeySets(s: seq<Member>, ms: seq<Member>)
    requires forall m :: m in s ==> m in ms
    ensures forall k :: k in Keys(s) ==> k in Keys(ms)
  {
    forall k | k in Keys(s) ensures k in Keys(ms) {
      var i :| 0 <= i < |s| && s[i].key == k;
      assert s[i] in ms;
      var j :| 0 <= j < |ms| && ms[j] == s[i];
      assert Keys(ms)[j] == k;
    }
  }

  lemma SortedKeys(le: KeyOrder, ms: seq<Member>)
    requires TotalOrder(le) && DistinctKeys(ms)
    ensures StrictlySorted(KeyLess(le), Keys(Sorted(le, ms)))
    ensures forall k :: k in Keys(Sorted(le, ms)) <==> k in Keys(ms)
    ensures DistinctKeys(Sorted(le, ms))
  {
    var s := Sorted(le, ms);
    var byKey := ByKey(le);
    ByKeyTotal(le);
    SortBySorted(byKey, ms);
    var key := (m: Member) => m.key;
    assert DistinctBy(key, ms);
    PermutationDistinct(key, ms, s);
    forall i, j | 0 <= i < j < |s| ensures s[i].key != s[j].key && le(s[i].key, s[j].key) {
      assert key(s[i]) != key(s[j]);
      assert byKey(s[i], s[j]);
    }
    SameElements(s, ms);
    SameKeySets(s, ms);
    SameKeySets(ms, s);
  }

  /** Two objects of one size whose keys match one way have the same keys. */
  lemma SameKeys(ms: seq<Member>, ns: seq<Member>)
    requires DistinctKeys(ms) && DistinctKeys(ns) && |ms| == |ns|
    requires forall k :: k in Keys(ms) ==> k in Keys(ns)
    ensures forall k :: k in Keys(ns) ==> k in Keys(ms)
  {
    var a, b := set k | k in Keys(ms), set k | k in Keys(ns);
    DistinctCount(Keys(ms));
    DistinctCount(Keys(ns));
    SubsetOfEqualSize(a, b);
    forall k | k in Keys(ns) ensures k in Keys(ms) { assert k in b; }
  }

  lemma {:induction false} DistinctCount(xs: seq<Units>)
    requires forall i, j :: 0 <= i < j < |xs| ==> xs[i] != xs[j]
    ensures |set x | x in xs| == |xs|
  {
    if xs != [] {
      DistinctCount(xs[1..]);
      assert (set x | x in xs) == (set x | x in xs[1..]) + {xs[0]};
    }
  }

  lemma SubsetOfEqualSize<T>(a: set<T>, b: set<T>)
    requires a <= b && |a| == |b|
    ensures a == b
  {
    assert |b| == |a| + |b - a| by { assert b == a + (b - a); }
  }

  lemma MatchedValue(ms: seq<Member>, ns: seq<Member>, m: Member, n: Member)
    requires m in ms && n in ns && m.key == n.key && DistinctKeys(ns)
    requires forall i :: 0 <= i < |ms| ==> HasMatch(ms[i], ns)
    ensures Equivalent(m.value, n.value)
  {
    hide Equivalent;
  }

  lemma MatchedKeys(ms: seq<Member>, ns: seq<Member>)
    requires forall i :: 0 <= i < |ms| ==> HasMatch(ms[i], ns)
    ensures forall k :: k in Keys(ms) ==> k in Keys(ns)
  {
    hide Equivalent;
    forall k | k in Keys(ms) ensures k in Keys(ns) {
      var i :| 0 <= i < |ms| && ms[i].key == k;
      assert HasMatch(ms[i], ns);
      var j :| 0 <= j < |ns| && ms[i].key == ns[j].key && Equivalent(ms[i].value, ns[j].value);
      assert Keys(ns)[j] == k;
    }
  }

  lemma {:induction false} EquivalentSameText(le: KeyOrder, v: Json, w: Json)
    requires TotalOrder(le) && WellFormed(v) && WellFormed(w) && Equivalent(v, w)
    ensures StableStringify(le, v) == StableStringify(le, w)
    decreases v, 1
  {
    match v
    case Arr(_) => ArraysSameText(le, v, w);
    case Obj(_) => ObjectsSameText(le, v, w);
    case _ =>
  }

  lemma {:induction false} ArraysSameText(le: KeyOrder, v: Json, w: Json)
    requires TotalOrder(le) && WellFormed(v) && WellFormed(w) && Equivalent(v, w) && v.Arr?
    ensures StableStringify(le, v) == StableStringify(le, w)
    decreases v, 0
  {
    hide StableStringify, TotalOrder;
    var xs, ys := v.items, w.items;
    ArrayText(le, xs);
    ArrayText(le, ys);
    forall i | 0 <= i < |xs| ensures StableStringify(le, xs[i]) == StableStringify(le, ys[i]) {
      EquivalentSameText(le, xs[i], ys[i]);
    }
    assert Texts(le, xs) == Texts(le, ys);
  }

  lemma {:induction false} ObjectsSameText(le: KeyOrder, v: Json, w: Json)
    requires TotalOrder(le) && WellFormed(v) && WellFormed(w) && Equivalent(v, w) && v.Obj?
    ensures StableStringify(le, v) == StableStringify(le, w)
    decreases v, 0
  {
    var ms, ns := v.members, w.members;
    assert w.Obj? && |ms| == |ns| && (forall i :: 0 <= i < |ms| ==> HasMatch(ms[i], ns));
    assert DistinctKeys(ms) && DistinctKeys(ns);
    hide *;
    var s, t := Sorted(le, ms), Sorted(le, ns);
    SortedSameKeys(le, ms, ns);
    forall i | 0 <= i < |s| ensures MemberText(le, s[i]) == MemberText(le, t[i]) {
      SameKeyAt(s, t, i);
      assert s[i] in s && t[i] in t;
      MatchedValue(ms, ns, s[i], t[i]);
      SortedValue(le, v, i);
      SortedValue(le, w, i);
      EquivalentSameText(le, s[i].value, t[i].value);
      SameMemberText(le, s[i], t[i]);
    }
    SameMemberTexts(le, s, t);
    ObjectText(le, ms);
    ObjectText(le, ns);
  }

  lemma SortedSameKeys(le: KeyOrder, ms: seq<Member>, ns: seq<Member>)
    requires TotalOrder(le) && DistinctKeys(ms) && DistinctKeys(ns) && |ms| == |ns|
    requires forall i :: 0 <= i < |ms| ==> HasMatch(ms[i], ns)
    ensures Keys(Sorted(le, ms)) == Keys(Sorted(le, ns))
  {
    hide TotalOrder, Sorted, HasMatch, DistinctKeys, Keys;
    SortedKeys(le, ms);
    SortedKeys(le, ns);
    MatchedKeys(ms, ns);
    SameKeys(ms, ns);
    StrictlySortedUnique(KeyLess(le), Keys(Sorted(le, ms)), Keys(Sorted(le, ns)));
  }

  lemma SameMemberTexts(le: KeyOrder, s: seq<Member>, t: seq<Member>)
    requires |s| == |t| && forall i :: 0 <= i < |s| ==> MemberText(le, s[i]) == MemberText(le, t[i])
    ensures MemberTexts(le, s) == MemberTexts(le, t)
  {
  }

  lemma SameKeyAt(s: seq<Member>, t: seq<Member>, i: nat)
    requires Keys(s) == Keys(t) && i < |s|
    ensures |s| == |t| && s[i].key == t[i].key
  {
    assert Keys(s)[i] == Keys(t)[i] && |Keys(s)| == |s| && |Keys(t)| == |t|;
  }

  lemma SameMemberText(le: KeyOrder, m: Member, n: Member)
    requires m.key == n.key && StableStringify(le, m.value) == StableStringify(le, n.value)
    ensures MemberText(le, m) == MemberText(le, n)
  {
  }

  lemma SortedValue(le: KeyOrder, v: Json, i: nat)
    requires v.Obj? && WellFormed(v) && i < |v.members|
    ensures Sorted(le, v.members)[i].value < v && WellFormed(Sorted(le, v.members)[i].value)
  {
    SortedParts(le, v);
    assert Sorted(le, v.members)[i] in Sorted(le, v.members);
  }

  /** `stableStringify` gives equal texts exactly to values that are equal up to the order of object keys. */
  lemma Canonical(le: KeyOrder, v: Json, w: Json)
    requires TotalOrder(le) && WellFormed(v) && WellFormed(w)
    ensures StableStringify(le, v) == StableStringify(le, w) <==> Equivalent(v, w)
  {
    hide StableStringify, WellFormed, TotalOrder, Equivalent;
    if StableStringify(le, v) == StableStringify(le, w) {
      assert StableStringify(le, v) + [] == StableStringify(le, w) + [];
      TextDetermines(le, v, [], w, []);
    }
    if Equivalent(v, w) {
      EquivalentSameText(le, v, w);
    }
  }
}
