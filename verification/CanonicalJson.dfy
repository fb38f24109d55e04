/**
  The printer whose output decides whether a stored ruleset configuration is the expected one:
  JSON text with the members of every object sorted by key.
 */
module CanonicalJson {
  import opened Wrappers
  import opened Rows
  import opened Sorting

  /** A number is its shortest decimal text. */
  datatype Json =
    | JsonNull
    | JsonBoolean(flag: bool)
    | JsonNumber(digits: string)
    | JsonString(text: string)
    | JsonArray(items: seq<Json>)
    | JsonObject(members: seq<Member>)

  datatype Member = Member(key: string, value: Json)

  type KeyOrder = (string, string) -> bool

  // ----- Printing -----

  function HexDigit(n: nat): char
    requires n < 16
  {
    "0123456789abcdef"[n]
  }

  /** Quotes, backslashes and control characters are escaped, the others stand for themselves. */
  function Escaped(c: char): string {
    if c == '"' then "\\\""
    else if c == '\\' then "\\\\"
    else if c == '\U{8}' then "\\b"
    else if c == '\t' then "\\t"
    else if c == '\n' then "\\n"
    else if c == '\U{c}' then "\\f"
    else if c == '\r' then "\\r"
    else if c < ' ' then "\\u00" + [HexDigit(c as nat / 16), HexDigit(c as nat % 16)]
    else [c]
  }

  function EscapedText(text: string): string {
    if text == "" then "" else Escaped(text[0]) + EscapedText(text[1..])
  }

  function Quoted(text: string): string {
    "\"" + EscapedText(text) + "\""
  }

  function ByKey(leq: KeyOrder): (Member, Member) -> bool {
    (a: Member, b: Member) => leq(a.key, b.key)
  }

  lemma SortedFromMembers(members: seq<Member>, leq: KeyOrder)
    ensures forall i :: 0 <= i < |SortedBy(members, ByKey(leq))| ==> SortedBy(members, ByKey(leq))[i] in members
  {
    var sorted := SortedBy(members, ByKey(leq));
    forall i | 0 <= i < |sorted| ensures sorted[i] in members {
      SortMembers(members, ByKey(leq), sorted[i]);
    }
  }

  /** `leq` compares keys: not after in the platform's collation. */
  function Canonical(v: Json, leq: KeyOrder): string
    decreases v, 1, 0
  {
    match v
    case JsonNull => "null"
    case JsonBoolean(flag) => if flag then "true" else "false"
    case JsonNumber(digits) => digits
    case JsonString(text) => Quoted(text)
    case JsonArray(items) => "[" + CanonicalItems(items, leq) + "]"
    case JsonObject(members) =>
      SortedFromMembers(members, leq);
      "{" + CanonicalMembers(v, SortedBy(members, ByKey(leq)), leq) + "}"
  }

  function CanonicalItems(items: seq<Json>, leq: KeyOrder): string
    decreases items, 0, 0
  {
    if items == [] then ""
    else Canonical(items[0], leq) + if |items| == 1 then "" else "," + CanonicalItems(items[1..], leq)
  }

  function CanonicalMembers(parent: Json, members: seq<Member>, leq: KeyOrder): string
    requires parent.JsonObject? && forall i :: 0 <= i < |members| ==> members[i] in parent.members
    decreases parent, 0, |members|
  {
    if members == [] then ""
    else
      Quoted(members[0].key) + ":" + Canonical(members[0].value, leq)
      + if |members| == 1 then "" else "," + CanonicalMembers(parent, members[1..], leq)
  }

  // ----- What printed values have in common -----

  /** Equal but for the order of object members. */
  predicate Same(v: Json, w: Json)
    decreases v
  {
    match v
    case JsonArray(items) => w.JsonArray? && |items| == |w.items| && forall i :: 0 <= i < |items| ==>
        Same(items[i], w.items[i])
    case JsonObject(members) =>
      && w.JsonObject?
      && |members| == |w.members|
      && forall i :: 0 <= i < |members| ==> HasSame(w.members, members[i])
    case _ => v == w
  }

  /** Some member has the key, and the same value. */
  predicate HasSame(members: seq<Member>, m: Member)
    decreases m
  {
    exists j :: 0 <= j < |members| && m.key == members[j].key && Same(m.value, members[j].value)
  }

  /** The same value, and printed alike. */
  predicate Alike(v: Json, w: Json, leq: KeyOrder) {
    Same(v, w) && Canonical(v, leq) == Canonical(w, leq)
  }

  predicate IsNumberText(text: string) {
    text != "" && forall i :: 0 <= i < |text| ==> text[i] in "0123456789+-.e"
  }

  /** Number texts are number texts and keys are unique. */
  predicate Valid(v: Json) {
    match v
    case JsonNumber(digits) => IsNumberText(digits)
    case JsonArray(items) => forall i :: 0 <= i < |items| ==> Valid(items[i])
    case JsonObject(members) =>
      && (forall i :: 0 <= i < |members| ==> Valid(members[i].value))
      && (forall i, j :: 0 <= i < j < |members| ==> members[i].key != members[j].key)
    case _ => true
  }

  // ----- Decoding -----

  /** The end of a value: nothing, or what follows it in an array or object. */
  predicate Ends(rest: string) {
    rest == "" || rest[0] == ',' || rest[0] == ']' || rest[0] == '}'
  }

  lemma SplitAfter(a: string, b: string, r: string, q: string)
    requires a + r == b + q && |a| == |b|
    ensures a == b && r == q
  {
    assert a == (a + r)[..|a|] && b == (b + q)[..|b|];
    assert r == (a + r)[|a|..] && q == (b + q)[|b|..];
  }

  lemma SplitBefore(a: string, b: string, r: string)
    requires a + r == b + r
    ensures a == b
  {
    assert |a + r| == |b + r|;
    SplitAfter(a, b, r, r);
  }

  /** Escapes are prefix-free. */
  lemma EscapeDecodes(c: char, d: char, r: string, q: string)
    requires Escaped(c) + r == Escaped(d) + q
    ensures c == d && r == q
  {
    var x, y := Escaped(c) + r, Escaped(d) + q;
    assert x[0] == Escaped(c)[0] && y[0] == Escaped(d)[0];
    if x[0] == '\\' {
      assert x[1] == Escaped(c)[1] && y[1] == Escaped(d)[1];
      if x[1] == 'u' {
        assert x[4] == Escaped(c)[4] && x[5] == Escaped(c)[5] && y[4] == Escaped(d)[4] && y[5] == Escaped(d)[5];
        HexIsInjective(c as nat / 16, d as nat / 16);
        HexIsInjective(c as nat % 16, d as nat % 16);
      }
    }
    SplitAfter(Escaped(c), Escaped(d), r, q);
  }

  lemma HexIsInjective(m: nat, n: nat)
    requires m < 16 && n < 16 && HexDigit(m) == HexDigit(n)
    ensures m == n
  {
  }

  lemma EscapedIsNotQuote(c: char)
    ensures Escaped(c) != "" && Escaped(c)[0] != '"'
  {
  }

  /** An escaped text is decoded up to its closing quote. */
  lemma {:induction false} TextDecodes(s: string, t: string, r: string, q: string)
    requires EscapedText(s) + "\"" + r == EscapedText(t) + "\"" + q
    ensures s == t && r == q
    decreases s
  {
    hide Escaped;
    var x, y := EscapedText(s) + "\"" + r, EscapedText(t) + "\"" + q;
    if s == "" || t == "" {
      TextStarts(s, r);
      TextStarts(t, q);
      assert r == x[1..] && q == y[1..];
    } else {
      var more, other := EscapedText(s[1..]) + "\"" + r, EscapedText(t[1..]) + "\"" + q;
      assert x == Escaped(s[0]) + more;
      assert y == Escaped(t[0]) + other;
      EscapeDecodes(s[0], t[0], more, other);
      TextDecodes(s[1..], t[1..], r, q);
      assert s == [s[0]] + s[1..] && t == [t[0]] + t[1..];
    }
  }

  lemma TextStarts(s: string, r: string)
    ensures (EscapedText(s) + "\"" + r)[0] == '"' <==> s == ""
    ensures s == "" ==> EscapedText(s) + "\"" + r == "\"" + r
  {
    if s == "" {
      assert EscapedText(s) + "\"" + r == "\"" + r;
    } else {
      EscapedIsNotQuote(s[0]);
      assert (EscapedText(s) + "\"" + r)[0] == Escaped(s[0])[0];
    }
  }

  lemma QuotedDecodes(s: string, t: string, r: string, q: string)
    requires Quoted(s) + r == Quoted(t) + q
    ensures s == t && r == q
  {
    hide EscapedText;
    assert (Quoted(s) + r)[1..] == EscapedText(s) + "\"" + r;
    assert (Quoted(t) + q)[1..] == EscapedText(t) + "\"" + q;
    TextDecodes(s, t, r, q);
  }

  /** Number texts end where the value ends. */
  lemma {:induction false} NumberDecodes(a: string, b: string, r: string, q: string)
    requires IsNumberText(a) && IsNumberText(b) && Ends(r) && Ends(q) && a + r == b + q
    ensures a == b && r == q
  {
    NumberNotShorter(a, b, r, q);
    NumberNotShorter(b, a, q, r);
    SplitAfter(a, b, r, q);
  }

  lemma NumberNotShorter(a: string, b: string, r: string, q: string)
    requires IsNumberText(b) && Ends(r) && a + r == b + q
    ensures |a| >= |b|
  {
    if |a| < |b| {
      OverlappingCharacter(a, b, r, q);
    }
  }

  lemma OverlappingCharacter(a: string, b: string, r: string, q: string)
    requires a + r == b + q && |a| < |b|
    ensures r != "" && r[0] == b[|a|]
  {
    assert |a + r| == |b + q|;
    assert (a + r)[|a|] == r[0] && (b + q)[|a|] == b[|a|];
  }

  lemma Reassociate(a: string, b: string, c: string)
    ensures (a + b) + c == a + (b + c)
  {
  }

  /** The first character tells the kind of value. */
  predicate StartsLike(v: Json, c: char) {
    match v
    case JsonNull => c == 'n'
    case JsonBoolean(flag) => c == if flag then 't' else 'f'
    case JsonNumber(_) => c in "0123456789+-.e"
    case JsonString(_) => c == '"'
    case JsonArray(_) => c == '['
    case JsonObject(_) => c == '{'
  }

  lemma FirstCharacter(v: Json, leq: KeyOrder)
    requires Valid(v)
    ensures Canonical(v, leq) != "" && StartsLike(v, Canonical(v, leq)[0])
  {
    hide EscapedText, SortedBy;
  }

  lemma SameKind(v: Json, w: Json, leq: KeyOrder, r: string, q: string)
    requires Valid(v) && Valid(w) && Canonical(v, leq) + r == Canonical(w, leq) + q
    ensures match v
            case JsonNull => w.JsonNull?
            case JsonBoolean(flag) => w == v
            case JsonNumber(_) => w.JsonNumber?
            case JsonString(_) => w.JsonString?
            case JsonArray(_) => w.JsonArray?
            case JsonObject(_) => w.JsonObject?
  {
    FirstCharacter(v, leq);
    FirstCharacter(w, leq);
    hide Canonical;
    assert (Canonical(v, leq) + r)[0] == Canonical(v, leq)[0];
    assert (Canonical(w, leq) + q)[0] == Canonical(w, leq)[0];
  }

  /** Printed values are decoded up to key order, wherever they end. */
  lemma {:induction false} ValueDecodes(v: Json, w: Json, leq: KeyOrder, r: string, q: string)
    requires Valid(v) && Valid(w) && Ends(r) && Ends(q)
    requires Canonical(v, leq) + r == Canonical(w, leq) + q
    ensures Alike(v, w, leq) && r == q
    decreases v, 1, 0
  {
    SameKind(v, w, leq, r, q);
    if r == q {
      SplitBefore(Canonical(v, leq), Canonical(w, leq), r);
    }
    match v {
      case JsonNull => SplitAfter("null", "null", r, q);
      case JsonBoolean(flag) => SplitAfter(Canonical(v, leq), Canonical(w, leq), r, q);
      case JsonNumber(digits) => NumberDecodes(digits, w.digits, r, q);
      case JsonString(text) => QuotedDecodes(text, w.text, r, q);
      case JsonArray(items) =>
        ArrayUnpacked(v, leq, r);
        ArrayUnpacked(w, leq, q);
        ItemsDecode(items, w.items, leq, r, q);
      case JsonObject(members) =>
        ObjectUnpacked(v, leq, r);
        ObjectUnpacked(w, leq, q);
        ObjectDecodes(v, w, leq, r, q);
    }
  }

  lemma ArrayUnpacked(v: Json, leq: KeyOrder, r: string)
    requires v.JsonArray?
    ensures (Canonical(v, leq) + r)[1..] == CanonicalItems(v.items, leq) + "]" + r
  {
  }

  function SortedMembers(v: Json, leq: KeyOrder): (sorted: seq<Member>)
    requires v.JsonObject?
    ensures forall i :: 0 <= i < |sorted| ==> sorted[i] in v.members
  {
    SortedFromMembers(v.members, leq);
    SortedBy(v.members, ByKey(leq))
  }

  lemma ObjectUnpacked(v: Json, leq: KeyOrder, r: string)
    requires v.JsonObject?
    ensures (Canonical(v, leq) + r)[1..] == CanonicalMembers(v, SortedMembers(v, leq), leq) + "}" + r
  {
  }

  /** One item and what follows it inside the brackets. */
  function AfterItem(items: seq<Json>, leq: KeyOrder, r: string): string
    requires items != []
  {
    (if |items| == 1 then "" else "," + CanonicalItems(items[1..], leq)) + "]" + r
  }

  lemma ItemUnpacked(items: seq<Json>, leq: KeyOrder, r: string)
    requires items != []
    ensures CanonicalItems(items, leq) + "]" + r == Canonical(items[0], leq) + AfterItem(items, leq, r)
    ensures Ends(AfterItem(items, leq, r))
  {
  }

  lemma ValuesDoNotClose(v: Json, c: char)
    requires StartsLike(v, c)
    ensures c != ']' && c != '}'
  {
  }

  lemma FirstOfTwo(a: string, b: string)
    requires a != ""
    ensures (a + b)[0] == a[0]
  {
  }

  lemma NoItems(items: seq<Json>, leq: KeyOrder, r: string)
    requires forall i :: 0 <= i < |items| ==> Valid(items[i])
    ensures (CanonicalItems(items, leq) + "]" + r)[0] == ']' <==> items == []
    ensures items == [] ==> (CanonicalItems(items, leq) + "]" + r)[1..] == r
  {
    if items == [] {
      EmptyItems(leq, r);
    } else {
      hide Canonical, CanonicalItems, AfterItem, Valid, StartsLike;
      FirstCharacter(items[0], leq);
      ValuesDoNotClose(items[0], Canonical(items[0], leq)[0]);
      ItemUnpacked(items, leq, r);
      FirstOfTwo(Canonical(items[0], leq), AfterItem(items, leq, r));
    }
  }

  lemma EmptyItems(leq: KeyOrder, r: string)
    ensures CanonicalItems([], leq) + "]" + r == "]" + r
    ensures ("]" + r)[0] == ']' && ("]" + r)[1..] == r
  {
    hide Canonical;
  }

  lemma AfterFirstItem(items: seq<Json>, leq: KeyOrder, r: string)
    requires items != []
    ensures var after := AfterItem(items, leq, r);
            && after != ""
            && after[0] == (if |items| == 1 then ']' else ',')
            && after[1..] == if |items| == 1 then r else CanonicalItems(items[1..], leq) + "]" + r
  {
    hide CanonicalItems;
  }

  lemma {:induction false} ItemsDecode(vs: seq<Json>, ws: seq<Json>, leq: KeyOrder, r: string, q: string)
    requires forall i :: 0 <= i < |vs| ==> Valid(vs[i])
    requires forall i :: 0 <= i < |ws| ==> Valid(ws[i])
    requires CanonicalItems(vs, leq) + "]" + r == CanonicalItems(ws, leq) + "]" + q
    ensures |vs| == |ws| && r == q && forall i :: 0 <= i < |vs| ==> Alike(vs[i], ws[i], leq)
    decreases vs, 0, 0
  {
    hide Canonical, CanonicalItems, Valid, Alike, AfterItem, Ends;
    NoItems(vs, leq, r);
    NoItems(ws, leq, q);
    if vs != [] && ws != [] {
      ItemUnpacked(vs, leq, r);
      ItemUnpacked(ws, leq, q);
      ValueDecodes(vs[0], ws[0], leq, AfterItem(vs, leq, r), AfterItem(ws, leq, q));
      AfterFirstItem(vs, leq, r);
      AfterFirstItem(ws, leq, q);
      if |vs| > 1 {
        ItemsDecode(vs[1..], ws[1..], leq, r, q);
        assert forall i :: 0 < i < |vs| ==> vs[i] == vs[1..][i - 1] && ws[i] == ws[1..][i - 1];
      }
    }
  }

  function AfterMember(parent: Json, members: seq<Member>, leq: KeyOrder, r: string): string
    requires parent.JsonObject? && members != [] && forall i :: 0 <= i < |members| ==> members[i] in parent.members
  {
    (if |members| == 1 then "" else "," + CanonicalMembers(parent, members[1..], leq)) + "}" + r
  }

  lemma MemberUnpacked(parent: Json, members: seq<Member>, leq: KeyOrder, r: string)
    requires parent.JsonObject? && members != [] && forall i :: 0 <= i < |members| ==> members[i] in parent.members
    ensures CanonicalMembers(parent, members, leq) + "}" + r
         == Quoted(members[0].key) + (":" + (Canonical(members[0].value, leq) + AfterMember(parent, members, leq, r)))
    ensures Ends(AfterMember(parent, members, leq, r))
  {
    var rest := if |members| == 1 then "" else "," + CanonicalMembers(parent, members[1..], leq);
    assert AfterMember(parent, members, leq, r) == rest + "}" + r;
    assert CanonicalMembers(parent, members, leq) == Quoted(members[0].key) + ":" + Canonical(members[0].value, leq)
        + rest;
    hide Quoted, Canonical, CanonicalMembers, AfterMember;
    Regroup(Quoted(members[0].key), Canonical(members[0].value, leq), rest, r);
  }

  lemma Regroup(key: string, value: string, rest: string, r: string)
    ensures (key + ":" + value + rest) + "}" + r == key + (":" + (value + (rest + "}" + r)))
  {
    Reassociate(key + ":" + value, rest, "}");
    Reassociate(key + ":" + value, rest + "}", r);
    Reassociate(key + ":", value, rest + "}" + r);
    Reassociate(key, ":", value + (rest + "}" + r));
  }

  lemma NoMembers(parent: Json, members: seq<Member>, leq: KeyOrder, r: string)
    requires parent.JsonObject? && forall i :: 0 <= i < |members| ==> members[i] in parent.members
    ensures (CanonicalMembers(parent, members, leq) + "}" + r)[0] == '}' <==> members == []
  {
    if members != [] {
      assert (CanonicalMembers(parent, members, leq) + "}" + r)[0] == '"';
    }
  }

  lemma BothOrNeitherEmpty(v: Json, ms: seq<Member>, w: Json, ws: seq<Member>, leq: KeyOrder, r: string, q: string)
    requires v.JsonObject? && forall i :: 0 <= i < |ms| ==> ms[i] in v.members
    requires w.JsonObject? && forall i :: 0 <= i < |ws| ==> ws[i] in w.members
    requires CanonicalMembers(v, ms, leq) + "}" + r == CanonicalMembers(w, ws, leq) + "}" + q
    ensures ms == [] <==> ws == []
    ensures ms == [] ==> r == q
  {
    NoMembers(v, ms, leq, r);
    NoMembers(w, ws, leq, q);
    if ms == [] {
      assert CanonicalMembers(v, [], leq) + "}" + r == "}" + r && CanonicalMembers(w, [], leq) + "}" + q == "}" + q;
      assert ("}" + r)[1..] == r && ("}" + q)[1..] == q;
    }
  }

  lemma {:induction false} MembersDecode(
    v: Json, ms: seq<Member>, w: Json, ws: seq<Member>, leq: KeyOrder, r: string, q: string)
    requires v.JsonObject? && Valid(v) && forall i :: 0 <= i < |ms| ==> ms[i] in v.members
    requires w.JsonObject? && Valid(w) && forall i :: 0 <= i < |ws| ==> ws[i] in w.members
    requires CanonicalMembers(v, ms, leq) + "}" + r == CanonicalMembers(w, ws, leq) + "}" + q
    ensures |ms| == |ws| && r == q
    ensures forall i :: 0 <= i < |ms| ==> ms[i].key == ws[i].key && Alike(ms[i].value, ws[i].value, leq)
    decreases v, 0, |ms|
  {
    BothOrNeitherEmpty(v, ms, w, ws, leq, r, q);
    if ms == [] {
    } else {
      FirstKeysDecode(v, ms, w, ws, leq, r, q);
      assert Valid(ms[0].value) && Valid(ws[0].value);
      hide Canonical, CanonicalMembers, Valid, Alike, AfterMember, Ends, Quoted, EscapedText;
      FirstMemberEnds(v, ms, leq, r);
      FirstMemberEnds(w, ws, leq, q);
      ValueDecodes(ms[0].value, ws[0].value, leq, AfterMember(v, ms, leq, r), AfterMember(w, ws, leq, q));
      AfterFirst(v, ms, leq, r);
      AfterFirst(w, ws, leq, q);
      if |ms| > 1 {
        MembersDecode(v, ms[1..], w, ws[1..], leq, r, q);
        assert forall i :: 0 < i < |ms| ==> ms[i] == ms[1..][i - 1] && ws[i] == ws[1..][i - 1];
      }
    }
  }

  lemma FirstKeysDecode(v: Json, ms: seq<Member>, w: Json, ws: seq<Member>, leq: KeyOrder, r: string, q: string)
    requires v.JsonObject? && ms != [] && forall i :: 0 <= i < |ms| ==> ms[i] in v.members
    requires w.JsonObject? && ws != [] && forall i :: 0 <= i < |ws| ==> ws[i] in w.members
    requires CanonicalMembers(v, ms, leq) + "}" + r == CanonicalMembers(w, ws, leq) + "}" + q
    ensures ms[0].key == ws[0].key
    ensures Canonical(ms[0].value, leq) + AfterMember(v, ms, leq, r) == Canonical(ws[0].value, leq)
            + AfterMember(w, ws, leq, q)
  {
    hide Canonical, CanonicalMembers, AfterMember, Quoted;
    MemberUnpacked(v, ms, leq, r);
    MemberUnpacked(w, ws, leq, q);
    var x, y := Canonical(ms[0].value, leq) + AfterMember(v, ms, leq, r),
        Canonical(ws[0].value, leq) + AfterMember(w, ws, leq, q);
    QuotedDecodes(ms[0].key, ws[0].key, ":" + x, ":" + y);
    assert (":" + x)[1..] == x && (":" + y)[1..] == y;
  }

  lemma FirstMemberEnds(parent: Json, members: seq<Member>, leq: KeyOrder, r: string)
    requires parent.JsonObject? && members != [] && forall i :: 0 <= i < |members| ==> members[i] in parent.members
    ensures Ends(AfterMember(parent, members, leq, r))
  {
    MemberUnpacked(parent, members, leq, r);
  }

  lemma AfterFirst(parent: Json, members: seq<Member>, leq: KeyOrder, r: string)
    requires parent.JsonObject? && members != [] && forall i :: 0 <= i < |members| ==> members[i] in parent.members
    ensures var after := AfterMember(parent, members, leq, r);
            && after != ""
            && after[0] == (if |members| == 1 then '}' else ',')
            && after[1..] == if |members| == 1 then r else CanonicalMembers(parent, members[1..], leq) + "}" + r
  {
    hide CanonicalMembers;
  }

  lemma {:induction false} ObjectDecodes(v: Json, w: Json, leq: KeyOrder, r: string, q: string)
    requires v.JsonObject? && Valid(v) && w.JsonObject? && Valid(w)
    requires CanonicalMembers(v, SortedMembers(v, leq), leq) + "}" + r
             == CanonicalMembers(w, SortedMembers(w, leq), leq) + "}" + q
    ensures Same(v, w) && r == q
    decreases v, 0, |v.members| + 1
  {
    var ms, ws := SortedMembers(v, leq), SortedMembers(w, leq);
    SortIsPermutation(v.members, ByKey(leq));
    SortIsPermutation(w.members, ByKey(leq));
    MembersDecode(v, ms, w, ws, leq, r, q);
    forall i | 0 <= i < |v.members| ensures HasSame(w.members, v.members[i]) {
      SortMembers(v.members, ByKey(leq), v.members[i]);
      var p :| 0 <= p < |ms| && ms[p] == v.members[i];
      assert ws[p] in w.members && Alike(ms[p].value, ws[p].value, leq);
    }
  }

  // ----- Values that are the same print alike -----

  /** In no object do two keys tie. */
  predicate KeysDiffer(v: Json, leq: KeyOrder) {
    match v
    case JsonArray(items) => forall i :: 0 <= i < |items| ==> KeysDiffer(items[i], leq)
    case JsonObject(members) =>
      && (forall i :: 0 <= i < |members| ==> KeysDiffer(members[i].value, leq))
      && NoTies(members, ByKey(leq))
    case _ => true
  }

  lemma {:induction false} SamePrintsAlike(v: Json, w: Json, leq: KeyOrder)
    requires TotalOrder(leq) && Valid(v) && Valid(w) && KeysDiffer(v, leq) && Same(v, w)
    ensures Canonical(v, leq) == Canonical(w, leq)
    decreases v, 1, 0
  {
    match v {
      case JsonArray(items) => ItemsPrintAlike(items, w.items, leq);
      case JsonObject(members) =>
        SortedKeysAgree(v, w, leq);
        MembersPrintAlike(v, SortedMembers(v, leq), w, SortedMembers(w, leq), leq);
      case _ =>
    }
  }

  lemma {:induction false} ItemsPrintAlike(vs: seq<Json>, ws: seq<Json>, leq: KeyOrder)
    requires TotalOrder(leq) && |vs| == |ws|
    requires forall i :: 0 <= i < |vs| ==> Valid(vs[i]) && Valid(ws[i]) && KeysDiffer(vs[i], leq) && Same(vs[i], ws[i])
    ensures CanonicalItems(vs, leq) == CanonicalItems(ws, leq)
    decreases vs, 0, 0
  {
    hide Canonical, Valid, KeysDiffer, Same;
    if vs == [] {
    } else {
      SamePrintsAlike(vs[0], ws[0], leq);
      ItemsPrintAlike(vs[1..], ws[1..], leq);
    }
  }

  lemma {:induction false} MembersPrintAlike(v: Json, ms: seq<Member>, w: Json, ws: seq<Member>, leq: KeyOrder)
    requires TotalOrder(leq) && |ms| == |ws|
    requires v.JsonObject? && Valid(v) && KeysDiffer(v, leq) && forall i :: 0 <= i < |ms| ==> ms[i] in v.members
    requires w.JsonObject? && Valid(w) && forall i :: 0 <= i < |ws| ==> ws[i] in w.members
    requires forall i :: 0 <= i < |ms| ==> ms[i].key == ws[i].key && Same(ms[i].value, ws[i].value)
    ensures CanonicalMembers(v, ms, leq) == CanonicalMembers(w, ws, leq)
    decreases v, 0, |ms|
  {
    if ms == [] {
    } else {
      assert Valid(ms[0].value) && Valid(ws[0].value) && KeysDiffer(ms[0].value, leq);
      hide Canonical, Valid, KeysDiffer, Same, Quoted;
      SamePrintsAlike(ms[0].value, ws[0].value, leq);
      MembersPrintAlike(v, ms[1..], w, ws[1..], leq);
    }
  }

  /** The place of a key among members whose keys are unique. */
  lemma UniqueKey(v: Json, a: Member, b: Member)
    requires v.JsonObject? && Valid(v) && a in v.members && b in v.members && a.key == b.key
    ensures a == b
  {
  }

  function Keys(members: seq<Member>): (keys: seq<string>)
    ensures |keys| == |members| && forall i :: 0 <= i < |members| ==> keys[i] == members[i].key
  {
    seq(|members|, i requires 0 <= i < |members| => members[i].key)
  }

  /** Sorting puts the members of same objects into the same order of keys, value by value. */
  lemma SortedKeysAgree(v: Json, w: Json, leq: KeyOrder)
    requires TotalOrder(leq) && Valid(v) && Valid(w) && KeysDiffer(v, leq) && Same(v, w) && v.JsonObject?
    ensures var ms, ws := SortedMembers(v, leq), SortedMembers(w, leq);
            && |ms| == |ws|
            && forall i :: 0 <= i < |ms| ==> ms[i].key == ws[i].key && Same(ms[i].value, ws[i].value)
  {
    var ms, ws := SortedMembers(v, leq), SortedMembers(w, leq);
    KeysMatch(v, w, leq);
    forall i | 0 <= i < |ms| ensures ms[i].key == ws[i].key && Same(ms[i].value, ws[i].value) {
      assert Keys(ms)[i] == Keys(ws)[i];
      var a :| 0 <= a < |v.members| && v.members[a] == ms[i];
      var b :| 0 <= b < |w.members| && v.members[a].key == w.members[b].key
          && Same(v.members[a].value, w.members[b].value);
      UniqueKey(w, w.members[b], ws[i]);
    }
  }

  lemma KeysMatch(v: Json, w: Json, leq: KeyOrder)
    requires TotalOrder(leq) && Valid(v) && Valid(w) && KeysDiffer(v, leq) && Same(v, w) && v.JsonObject?
    ensures Keys(SortedMembers(v, leq)) == Keys(SortedMembers(w, leq))
  {
    var ms, ws := SortedMembers(v, leq), SortedMembers(w, leq);
    KeysAreSorted(v, leq);
    KeysAreSorted(w, leq);
    KeysNeverTie(v, leq);
    forall k | k in Keys(ms) ensures k in Keys(ws) {
      var i :| 0 <= i < |ms| && Keys(ms)[i] == k;
      var a :| 0 <= a < |v.members| && v.members[a] == ms[i];
      var b :| 0 <= b < |w.members| && v.members[a].key == w.members[b].key;
      SortMembers(w.members, ByKey(leq), w.members[b]);
      var j :| 0 <= j < |ws| && ws[j] == w.members[b];
      assert Keys(ws)[j] == k;
    }
    SameElements(Keys(ms), Keys(ws));
    OrderedListingIsUnique(Keys(ms), Keys(ws), leq);
  }

  /** The keys of a sorted object are ordered and different. */
  lemma KeysAreSorted(v: Json, leq: KeyOrder)
    requires TotalOrder(leq) && Valid(v) && v.JsonObject?
    ensures var ms := SortedMembers(v, leq);
            && |ms| == |v.members| && Ordered(Keys(ms), leq)
            && forall i, j :: 0 <= i < j < |ms| ==> Keys(ms)[i] != Keys(ms)[j]
  {
    var ms := SortedMembers(v, leq);
    SortIsPermutation(v.members, ByKey(leq));
    assert TotalOrder(ByKey(leq)) by {
      assert forall a: Member, b: Member :: ByKey(leq)(a, b) == leq(a.key, b.key);
    }
    SortIsOrdered(v.members, ByKey(leq));
    assert forall i, j :: 0 <= i < j < |ms| ==> ByKey(leq)(ms[i], ms[j]);
    assert Distinct(v.members);
    DistinctSort(v.members, ByKey(leq));
    forall i, j | 0 <= i < j < |ms| ensures Keys(ms)[i] != Keys(ms)[j] {
      if ms[i].key == ms[j].key {
        UniqueKey(v, ms[i], ms[j]);
      }
    }
  }

  lemma KeysNeverTie(v: Json, leq: KeyOrder)
    requires TotalOrder(leq) && Valid(v) && v.JsonObject? && KeysDiffer(v, leq)
    ensures NoTies(Keys(SortedMembers(v, leq)), leq)
  {
    var ms := SortedMembers(v, leq);
    KeysAreSorted(v, leq);
    forall i, j | 0 <= i < j < |ms| ensures !(leq(Keys(ms)[i], Keys(ms)[j]) && leq(Keys(ms)[j], Keys(ms)[i])) {
      var a :| 0 <= a < |v.members| && v.members[a] == ms[i];
      var b :| 0 <= b < |v.members| && v.members[b] == ms[j];
      assert a != b;
      assert !(ByKey(leq)(v.members[a], v.members[b]) && ByKey(leq)(v.members[b], v.members[a]));
    }
  }

  /** Two listings of the same length without repetition, one inside the other, have the same elements. */
  lemma {:induction false} SameElements(a: seq<string>, b: seq<string>)
    requires |a| == |b|
    requires forall i, j :: 0 <= i < j < |a| ==> a[i] != a[j]
    requires forall i, j :: 0 <= i < j < |b| ==> b[i] != b[j]
    requires forall x :: x in a ==> x in b
    ensures multiset(a) == multiset(b)
  {
    if a == [] {
    } else {
      assert a[0] in a;
      var j :| 0 <= j < |b| && b[j] == a[0];
      var rest := WithoutPlace(b, j);
      forall x | x in a[1..] ensures x in rest {
        var i :| 0 <= i < |a[1..]| && a[1..][i] == x;
        assert a[i + 1] == x && x in a;
      }
      SameElements(a[1..], rest);
      assert a == [a[0]] + a[1..];
    }
  }

  function WithoutPlace(b: seq<string>, j: nat): (rest: seq<string>)
    requires j < |b|
    requires forall i, k :: 0 <= i < k < |b| ==> b[i] != b[k]
    ensures |rest| == |b| - 1 && multiset(b) == multiset(rest) + multiset{b[j]}
    ensures forall x :: x in b && x != b[j] ==> x in rest
    ensures forall i, k :: 0 <= i < k < |rest| ==> rest[i] != rest[k]
  {
    assert b == b[..j] + [b[j]] + b[j + 1..];
    b[..j] + b[j + 1..]
  }

  // ----- Tied keys print apart -----

  lemma {:induction false} SameAsItself(v: Json)
    ensures Same(v, v)
  {
    if v.JsonArray? {
      forall i | 0 <= i < |v.items| ensures Same(v.items[i], v.items[i]) {
        SameAsItself(v.items[i]);
      }
    } else if v.JsonObject? {
      forall i | 0 <= i < |v.members| ensures HasSame(v.members, v.members[i]) {
        SameAsItself(v.members[i].value);
      }
    }
  }

  function WithItem(v: Json, i: nat, item: Json): Json
    requires v.JsonArray? && i < |v.items|
  {
    JsonArray(v.items[i := item])
  }

  /** Arrays that print alike print each of their items alike. */
  lemma ItemsPrintAlikeEach(v: Json, w: Json, i: nat, leq: KeyOrder)
    requires v.JsonArray? && w.JsonArray? && Valid(v) && Valid(w) && Canonical(v, leq) == Canonical(w, leq)
    requires i < |v.items|
    ensures |v.items| == |w.items| && Canonical(v.items[i], leq) == Canonical(w.items[i], leq)
  {
    ArrayUnpacked(v, leq, "");
    ArrayUnpacked(w, leq, "");
    hide Canonical, CanonicalItems, Same;
    ItemsDecode(v.items, w.items, leq, "", "");
    assert Alike(v.items[i], w.items[i], leq);
  }

  /** An array with one item replaced by the same value, printed apart, is the same array, printed apart. */
  lemma ItemPrintsApart(v: Json, i: nat, item: Json, leq: KeyOrder)
    requires v.JsonArray? && i < |v.items| && Valid(v) && Valid(item)
    requires Same(v.items[i], item) && Canonical(v.items[i], leq) != Canonical(item, leq)
    ensures Valid(WithItem(v, i, item)) && Same(v, WithItem(v, i, item))
    ensures Canonical(v, leq) != Canonical(WithItem(v, i, item), leq)
  {
    var w := WithItem(v, i, item);
    forall k | 0 <= k < |v.items| ensures Same(v.items[k], w.items[k]) {
      SameAsItself(v.items[k]);
    }
    hide Canonical, Same;
    if Canonical(v, leq) == Canonical(w, leq) {
      ItemsPrintAlikeEach(v, w, i, leq);
    }
  }

  function WithValue(v: Json, i: nat, value: Json): Json
    requires v.JsonObject? && i < |v.members|
  {
    JsonObject(v.members[i := Member(v.members[i].key, value)])
  }

  lemma WithValueIsSame(v: Json, i: nat, value: Json)
    requires v.JsonObject? && i < |v.members| && Valid(v) && Valid(value) && Same(v.members[i].value, value)
    ensures Valid(WithValue(v, i, value)) && Same(v, WithValue(v, i, value))
  {
    var w := WithValue(v, i, value);
    forall k | 0 <= k < |v.members| ensures HasSame(w.members, v.members[k]) {
      SameAsItself(v.members[k].value);
      assert v.members[k].key == w.members[k].key && Same(v.members[k].value, w.members[k].value);
    }
  }

  /** Objects that print alike print the values of each key alike. */
  lemma ValuesPrintAlike(v: Json, w: Json, i: nat, j: nat, leq: KeyOrder)
    requires v.JsonObject? && w.JsonObject? && Valid(v) && Valid(w) && Canonical(v, leq) == Canonical(w, leq)
    requires i < |v.members| && j < |w.members| && v.members[i].key == w.members[j].key
    ensures Canonical(v.members[i].value, leq) == Canonical(w.members[j].value, leq)
  {
    var ms, ws := SortedMembers(v, leq), SortedMembers(w, leq);
    ObjectUnpacked(v, leq, "");
    ObjectUnpacked(w, leq, "");
    SortMembers(v.members, ByKey(leq), v.members[i]);
    var p :| 0 <= p < |ms| && ms[p] == v.members[i];
    hide Canonical, CanonicalMembers, Same;
    MembersDecode(v, ms, w, ws, leq, "", "");
    assert Alike(ms[p].value, ws[p].value, leq);
    UniqueKey(w, ws[p], w.members[j]);
  }

  lemma ValuePrintsApart(v: Json, i: nat, value: Json, leq: KeyOrder)
    requires v.JsonObject? && i < |v.members| && Valid(v) && Valid(value)
    requires Same(v.members[i].value, value) && Canonical(v.members[i].value, leq) != Canonical(value, leq)
    ensures Valid(WithValue(v, i, value)) && Same(v, WithValue(v, i, value))
    ensures Canonical(v, leq) != Canonical(WithValue(v, i, value), leq)
  {
    hide Canonical, Same, Valid;
    WithValueIsSame(v, i, value);
    if Canonical(v, leq) == Canonical(WithValue(v, i, value), leq) {
      ValuesPrintAlike(v, WithValue(v, i, value), i, i, leq);
    }
  }

  function Swapped(v: Json, i: nat, j: nat): Json
    requires v.JsonObject? && i < j < |v.members|
  {
    JsonObject(v.members[i := v.members[j]][j := v.members[i]])
  }

  lemma SwappedIsSame(v: Json, i: nat, j: nat)
    requires v.JsonObject? && i < j < |v.members| && Valid(v)
    ensures Valid(Swapped(v, i, j)) && Same(v, Swapped(v, i, j))
  {
    var w := Swapped(v, i, j);
    forall k | 0 <= k < |v.members| ensures HasSame(w.members, v.members[k]) {
      SameAsItself(v.members[k].value);
      var n := if k == i then j else if k == j then i else k;
      assert w.members[n] == v.members[k];
    }
  }

  /** Objects that print alike list their keys in the same order. */
  lemma KeysStandAlike(v: Json, w: Json, a: Member, b: Member, leq: KeyOrder)
    requires v.JsonObject? && w.JsonObject? && Valid(v) && Valid(w) && Canonical(v, leq) == Canonical(w, leq)
    requires a in w.members && b in w.members && Before(SortedMembers(v, leq), a, b)
    ensures Before(SortedMembers(w, leq), a, b)
  {
    var ms, ws := SortedMembers(v, leq), SortedMembers(w, leq);
    ObjectUnpacked(v, leq, "");
    ObjectUnpacked(w, leq, "");
    hide Canonical, CanonicalMembers;
    MembersDecode(v, ms, w, ws, leq, "", "");
    var p, q :| 0 <= p < q < |ms| && ms[p] == a && ms[q] == b;
    UniqueKey(w, ws[p], a);
    UniqueKey(w, ws[q], b);
    assert ws[p] == a && ws[q] == b;
  }

  /** Two different members are not before each other both ways. */
  lemma OneWayOnly(rows: seq<Member>, a: Member, b: Member)
    requires Distinct(rows) && a != b && Before(rows, a, b)
    ensures !Before(rows, b, a)
  {
    var p, q :| 0 <= p < q < |rows| && rows[p] == a && rows[q] == b;
    forall m, n | 0 <= m < n < |rows| ensures !(rows[m] == b && rows[n] == a) {
      assert rows[m] == b ==> m == q;
      assert rows[n] == a ==> n == p;
    }
  }

  /** Swapping two members with tied keys gives the same object, printed apart. */
  lemma SwappedPrintsApart(v: Json, i: nat, j: nat, leq: KeyOrder)
    requires v.JsonObject? && i < j < |v.members| && Valid(v)
    requires leq(v.members[i].key, v.members[j].key) && leq(v.members[j].key, v.members[i].key)
    ensures Valid(Swapped(v, i, j)) && Same(v, Swapped(v, i, j))
    ensures Canonical(v, leq) != Canonical(Swapped(v, i, j), leq)
  {
    var w := Swapped(v, i, j);
    var a, b := v.members[i], v.members[j];
    SwappedIsSame(v, i, j);
    SortIsStable(v.members, ByKey(leq), i, j);
    SortIsStable(w.members, ByKey(leq), i, j);
    assert Distinct(w.members);
    DistinctSort(w.members, ByKey(leq));
    assert w.members[i] == b && w.members[j] == a && a.key != b.key;
    hide Canonical, Same, Valid;
    if Canonical(v, leq) == Canonical(w, leq) {
      KeysStandAlike(v, w, a, b, leq);
      OneWayOnly(SortedMembers(w, leq), a, b);
    }
  }

  /** Wherever two keys of an object tie, deep inside or not, some same value prints apart. */
  lemma {:induction false} TiesPrintApart(v: Json, leq: KeyOrder) returns (w: Json)
    requires Valid(v) && !KeysDiffer(v, leq)
    ensures Valid(w) && Same(v, w) && Canonical(v, leq) != Canonical(w, leq)
    decreases v
  {
    if v.JsonArray? {
      var i :| 0 <= i < |v.items| && !KeysDiffer(v.items[i], leq);
      var item := TiesPrintApart(v.items[i], leq);
      w := WithItem(v, i, item);
      hide Canonical, Same;
      ItemPrintsApart(v, i, item, leq);
    } else if exists i :: 0 <= i < |v.members| && !KeysDiffer(v.members[i].value, leq) {
      var i :| 0 <= i < |v.members| && !KeysDiffer(v.members[i].value, leq);
      var value := TiesPrintApart(v.members[i].value, leq);
      w := WithValue(v, i, value);
      hide Canonical, Same;
      ValuePrintsApart(v, i, value, leq);
    } else {
      var i, j :| 0 <= i < j < |v.members|
                  && ByKey(leq)(v.members[i], v.members[j]) && ByKey(leq)(v.members[j], v.members[i]);
      w := Swapped(v, i, j);
      hide Canonical, Same;
      SwappedPrintsApart(v, i, j, leq);
    }
  }

  ghost predicate PrintsLikeItsEquals(v: Json, leq: KeyOrder) {
    forall w :: Valid(w) && Same(v, w) ==> Canonical(v, leq) == Canonical(w, leq)
  }

  /** A value prints like all values equal to it up to key order exactly when in none of its objects two keys tie. */
  lemma PrintsLikeItsEqualsIff(v: Json, leq: KeyOrder)
    requires TotalOrder(leq) && Valid(v)
    ensures PrintsLikeItsEquals(v, leq) <==> KeysDiffer(v, leq)
  {
    hide Canonical, Same, Valid, KeysDiffer;
    if KeysDiffer(v, leq) {
      forall w | Valid(w) && Same(v, w) ensures Canonical(v, leq) == Canonical(w, leq) {
        SamePrintsAlike(v, w, leq);
      }
    } else {
      var w := TiesPrintApart(v, leq);
      assert Valid(w) && Same(v, w);
    }
  }

  /** Being the same works both ways. */
  lemma {:induction false} SameIsSymmetric(v: Json, w: Json)
    requires Valid(v) && Valid(w) && Same(v, w)
    ensures Same(w, v)
    decreases v
  {
    if v.JsonArray? {
      forall i | 0 <= i < |v.items| ensures Same(w.items[i], v.items[i]) {
        SameIsSymmetric(v.items[i], w.items[i]);
      }
    } else if v.JsonObject? {
      forall j | 0 <= j < |w.members| ensures HasSame(v.members, w.members[j]) {
        var i := KeyIsShared(v, w, j);
        var k :| 0 <= k < |w.members| && v.members[i].key == w.members[k].key
            && Same(v.members[i].value, w.members[k].value);
        UniqueKey(w, w.members[k], w.members[j]);
        SameIsSymmetric(v.members[i].value, w.members[k].value);
      }
    }
  }

  /** Every key of an object is a key of every object that is the same. */
  lemma KeyIsShared(v: Json, w: Json, j: nat) returns (i: nat)
    requires v.JsonObject? && w.JsonObject? && Valid(v) && Valid(w) && Same(v, w) && j < |w.members|
    ensures i < |v.members| && v.members[i].key == w.members[j].key
  {
    var vs, ws := Keys(v.members), Keys(w.members);
    forall k | k in vs ensures k in ws {
      var n :| 0 <= n < |v.members| && vs[n] == k;
      var m :| 0 <= m < |w.members| && v.members[n].key == w.members[m].key;
      assert ws[m] == k;
    }
    SameElements(vs, ws);
    assert ws[j] in multiset(ws);
    assert ws[j] in multiset(vs);
    i :| 0 <= i < |vs| && vs[i] == ws[j];
  }

  // ----- The decision -----

  datatype RulesetStatus = Draft | Active | Superseded | Archived

  datatype Ruleset = Ruleset(status: RulesetStatus, configuration: Json)

  datatype SeedAction = Create | Reuse

  datatype SeedError = DriftError(rulesetKey: string)

  function DecideSeedAction(
    existing: Option<Ruleset>, expected: Json, rulesetKey: string, leq: KeyOrder): Result<SeedAction, SeedError> {
    if existing.None? then Ok(Create)
    else if existing.value.status != Active
        || Canonical(existing.value.configuration, leq) != Canonical(expected, leq) then
      Err(DriftError(rulesetKey))
    else Ok(Reuse)
  }

  /** Equal outputs mean values equal up to key order, whatever the collation. */
  lemma EqualOutputsAreSame(v: Json, w: Json, leq: KeyOrder)
    requires Valid(v) && Valid(w) && Canonical(v, leq) == Canonical(w, leq)
    ensures Same(v, w)
  {
    ValueDecodes(v, w, leq, "", "");
  }

  /**
    If no keys tie in the expected configuration, a ruleset is reused exactly when it is active
    with that configuration, up to key order.
   */
  lemma ReusedExactlyWhenSame(existing: Option<Ruleset>, expected: Json, rulesetKey: string, leq: KeyOrder)
    requires TotalOrder(leq) && Valid(expected) && KeysDiffer(expected, leq)
    requires existing.Some? ==> Valid(existing.value.configuration)
    ensures DecideSeedAction(existing, expected, rulesetKey, leq) == Ok(Reuse)
       <==> existing.Some? && existing.value.status == Active && Same(existing.value.configuration, expected)
    ensures DecideSeedAction(existing, expected, rulesetKey, leq) == Ok(Create) <==> existing.None?
  {
    hide Canonical, Same, Valid, KeysDiffer;
    if existing.Some? {
      var v := existing.value.configuration;
      if Canonical(v, leq) == Canonical(expected, leq) {
        EqualOutputsAreSame(v, expected, leq);
      }
      if Same(v, expected) {
        SameIsSymmetric(v, expected);
        SamePrintsAlike(expected, v, leq);
      }
    }
  }

  /** Active rulesets are reused for exactly the configurations that are the same. */
  ghost predicate RecognisesTheExpected(expected: Json, rulesetKey: string, leq: KeyOrder) {
    forall stored :: Valid(stored) ==>
      (DecideSeedAction(Some(Ruleset(Active, stored)), expected, rulesetKey, leq) == Ok(Reuse) <==>
       Same(stored, expected))
  }

  /**
    The decision recognises an expected configuration in every key order exactly when in none of
    its objects two keys tie.
   */
  lemma ExpectedIsRecognisedIff(expected: Json, rulesetKey: string, leq: KeyOrder)
    requires TotalOrder(leq) && Valid(expected)
    ensures RecognisesTheExpected(expected, rulesetKey, leq) <==> KeysDiffer(expected, leq)
  {
    hide Canonical, Same, Valid, KeysDiffer;
    if KeysDiffer(expected, leq) {
      forall stored | Valid(stored)
        ensures DecideSeedAction(Some(Ruleset(Active, stored)), expected, rulesetKey, leq) == Ok(Reuse)
                <==> Same(stored, expected)
      {
        ReusedExactlyWhenSame(Some(Ruleset(Active, stored)), expected, rulesetKey, leq);
      }
    } else {
      var w := TiesPrintApart(expected, leq);
      SameIsSymmetric(expected, w);
      assert DecideSeedAction(Some(Ruleset(Active, w)), expected, rulesetKey, leq) == Err(DriftError(rulesetKey));
    }
  }

  ghost predicate TellsKeysApart(leq: KeyOrder) {
    forall a, b :: leq(a, b) && leq(b, a) ==> a == b
  }

  ghost predicate IgnoresKeyOrder(leq: KeyOrder) {
    forall v, w :: Valid(v) && Valid(w) && Same(v, w) ==> Canonical(v, leq) == Canonical(w, leq)
  }

  /** Key order is ignored exactly when the collation tells all different keys apart. */
  lemma KeyOrderIsIgnoredIff(leq: KeyOrder)
    requires TotalOrder(leq)
    ensures IgnoresKeyOrder(leq) <==> TellsKeysApart(leq)
  {
    if TellsKeysApart(leq) {
      forall v, w | Valid(v) && Valid(w) && Same(v, w) ensures Canonical(v, leq) == Canonical(w, leq) {
        DistinctKeysDiffer(v, leq);
        SamePrintsAlike(v, w, leq);
      }
    } else {
      var a, b :| leq(a, b) && leq(b, a) && a != b;
      TiedKeysPrintApart(a, b, leq);
    }
  }

  lemma {:induction false} DistinctKeysDiffer(v: Json, leq: KeyOrder)
    requires TellsKeysApart(leq) && Valid(v)
    ensures KeysDiffer(v, leq)
  {
    match v {
      case JsonArray(items) =>
        forall i | 0 <= i < |items| ensures KeysDiffer(items[i], leq) {
          DistinctKeysDiffer(items[i], leq);
        }
      case JsonObject(members) =>
        forall i | 0 <= i < |members| ensures KeysDiffer(members[i].value, leq) {
          DistinctKeysDiffer(members[i].value, leq);
        }
      case _ =>
    }
  }

  function Pair(a: string, b: string): Json {
    JsonObject([Member(a, JsonNull), Member(b, JsonNull)])
  }

  /** Two members in either order are the same object, but tied keys print in the order they stand in. */
  lemma TiedKeysPrintApart(a: string, b: string, leq: KeyOrder)
    requires leq(a, b) && leq(b, a) && a != b
    ensures Valid(Pair(a, b)) && Valid(Pair(b, a)) && Same(Pair(a, b), Pair(b, a))
    ensures Canonical(Pair(a, b), leq) != Canonical(Pair(b, a), leq)
  {
    assert Swapped(Pair(a, b), 0, 1) == Pair(b, a);
    hide Canonical, Same;
    SwappedPrintsApart(Pair(a, b), 0, 1, leq);
  }
}
