/**
  A reader of JSON text without insignificant white space, by the grammar of RFC 8259, and the proof
  that it reads every printed configuration back: the same value, its keys in order.
 */
module JsonReading {
  import opened Wrappers
  import opened Rows
  import opened Sorting
  import opened CanonicalJson

  // ----- Texts -----

  function HexValue(c: char): int {
    if '0' <= c <= '9' then c as int - '0' as int
    else if 'a' <= c <= 'f' then c as int - 'a' as int + 10
    else if 'A' <= c <= 'F' then c as int - 'A' as int + 10
    else -1
  }

  /** The code of four hexadecimal digits, or -1. */
  function HexCode(s: string): int
    requires |s| >= 4
  {
    var a, b, c, d := HexValue(s[0]), HexValue(s[1]), HexValue(s[2]), HexValue(s[3]);
    if a < 0 || b < 0 || c < 0 || d < 0 then -1 else 4096 * a + 256 * b + 16 * c + d
  }

  /** The character after a backslash, but for 'u'. */
  function Unescaped(c: char): Option<char> {
    match c
    case '"' => Some('"')
    case '\\' => Some('\\')
    case '/' => Some('/')
    case 'b' => Some(8 as char)
    case 'f' => Some(12 as char)
    case 'n' => Some(10 as char)
    case 'r' => Some(13 as char)
    case 't' => Some(9 as char)
    case _ => None
  }

  /** Reads up to the closing quote; escaped surrogates are not read. */
  function ReadText(s: string): (r: Option<(string, string)>)
    ensures r.Some? ==> |r.value.1| < |s|
    decreases |s|
  {
    if s == "" || s[0] as int < 32 then None
    else if s[0] == '"' then Some(("", s[1..]))
    else if s[0] != '\\' then Joined(s[0], ReadText(s[1..]))
    else if |s| >= 6 && s[1] == 'u' then
      var code := HexCode(s[2..6]);
      if code < 0 || 0xd800 <= code < 0xe000 then None else Joined(code as char, ReadText(s[6..]))
    else if |s| >= 2 && Unescaped(s[1]).Some? then Joined(Unescaped(s[1]).value, ReadText(s[2..]))
    else None
  }

  function Joined(c: char, r: Option<(string, string)>): Option<(string, string)> {
    if r.None? then None else Some(([c] + r.value.0, r.value.1))
  }

  // ----- Values -----

  function NumberLength(s: string): (n: nat)
    ensures n <= |s|
  {
    if s != "" && s[0] in "0123456789+-.e" then 1 + NumberLength(s[1..]) else 0
  }

  /** One value, and what follows it. */
  function ReadValue(s: string): (r: Option<(Json, string)>)
    ensures r.Some? ==> |r.value.1| < |s|
    decreases |s|, 0
  {
    if s == "" then None
    else if "null" <= s then Some((JsonNull, s[4..]))
    else if "true" <= s then Some((JsonBoolean(true), s[4..]))
    else if "false" <= s then Some((JsonBoolean(false), s[5..]))
    else if s[0] == '"' then
      var text := ReadText(s[1..]);
      if text.None? then None else Some((JsonString(text.value.0), text.value.1))
    else if s[0] == '[' then
      if "]" <= s[1..] then Some((JsonArray([]), s[2..]))
      else
        var items := ReadItems(s[1..]);
        if items.None? then None else Some((JsonArray(items.value.0), items.value.1))
    else if s[0] == '{' then
      if "}" <= s[1..] then Some((JsonObject([]), s[2..]))
      else
        var members := ReadMembers(s[1..]);
        if members.None? then None else Some((JsonObject(members.value.0), members.value.1))
    else if NumberLength(s) > 0 then Some((JsonNumber(s[..NumberLength(s)]), s[NumberLength(s)..]))
    else None
  }

  /** One value or more, up to the closing bracket. */
  function ReadItems(s: string): (r: Option<(seq<Json>, string)>)
    ensures r.Some? ==> |r.value.1| < |s|
    decreases |s|, 1
  {
    var first := ReadValue(s);
    if first.None? || first.value.1 == "" then None
    else if first.value.1[0] == ']' then Some(([first.value.0], first.value.1[1..]))
    else if first.value.1[0] == ',' then
      var others := ReadItems(first.value.1[1..]);
      if others.None? then None else Some(([first.value.0] + others.value.0, others.value.1))
    else None
  }

  /** One member or more, up to the closing brace. */
  function ReadMembers(s: string): (r: Option<(seq<Member>, string)>)
    ensures r.Some? ==> |r.value.1| < |s|
    decreases |s|, 1
  {
    if s == "" || s[0] != '"' then None
    else
      var key := ReadText(s[1..]);
      if key.None? || key.value.1 == "" || key.value.1[0] != ':' then None
      else
        var first := ReadValue(key.value.1[1..]);
        if first.None? || first.value.1 == "" then None
        else
          var member := Member(key.value.0, first.value.0);
          if first.value.1[0] == '}' then Some(([member], first.value.1[1..]))
          else if first.value.1[0] == ',' then
            var others := ReadMembers(first.value.1[1..]);
            if others.None? then None else Some(([member] + others.value.0, others.value.1))
          else None
  }

  // ----- Printed texts are read back -----

  lemma HexDigitIsRead(n: nat)
    requires n < 16
    ensures HexValue(HexDigit(n)) == n
  {
  }

  lemma CodeIsRead(a: nat, b: nat, more: string)
    requires a < 2 && b < 16
    ensures ReadText("\\u00" + [HexDigit(a), HexDigit(b)] + more) == Joined((16 * a + b) as char, ReadText(more))
  {
    var s := "\\u00" + [HexDigit(a), HexDigit(b)] + more;
    HexDigitIsRead(a);
    HexDigitIsRead(b);
    hide HexDigit, Joined, Unescaped;
    assert s[0] == '\\' && s[1] == 'u' && s[6..] == more;
    assert s[2..6] == ['0', '0', HexDigit(a), HexDigit(b)];
    assert HexCode(s[2..6]) == 16 * a + b;
  }

  lemma ShortEscapeIsRead(e: char, c: char, more: string)
    requires Unescaped(e) == Some(c)
    ensures ReadText(['\\', e] + more) == Joined(c, ReadText(more))
  {
    hide Joined, HexCode;
    var s := ['\\', e] + more;
    assert s[0] == '\\' && s[1] == e && s[2..] == more;
    assert e != 'u';
  }

  lemma PlainIsRead(c: char, more: string)
    requires c as int >= 32 && c != '"' && c != '\\'
    ensures ReadText([c] + more) == Joined(c, ReadText(more))
  {
    hide Joined, HexCode, Unescaped;
    assert ([c] + more)[1..] == more;
  }

  lemma EscapeIsRead(c: char, more: string)
    ensures ReadText(Escaped(c) + more) == Joined(c, ReadText(more))
  {
    hide ReadText, HexDigit;
    var escaped := Escaped(c);
    if |escaped| == 2 {
      assert escaped == ['\\', escaped[1]];
      ShortEscapeIsRead(escaped[1], c, more);
    } else if |escaped| == 6 {
      CodeIsRead(c as nat / 16, c as nat % 16, more);
    } else {
      PlainIsRead(c, more);
    }
  }

  /** What the first character read stands on: itself, an escape of two characters, or one of six. */
  lemma FirstIsRead(s: string)
    requires ReadText(s).Some? && ReadText(s).value.0 != ""
    ensures s != ""
    ensures s[0] != '\\' ==> s[0] == ReadText(s).value.0[0] && s[0] as int >= 32 && s[0] != '"'
    ensures s[0] == '\\' ==> |s| > 2
    ensures s[0] == '\\' && s[1] != 'u' ==> Unescaped(s[1]) == Some(ReadText(s).value.0[0])
    ensures s[0] == '\\' && s[1] == 'u' ==> |s| > 6
  {
    hide HexCode, Unescaped;
    assert Unescaped('u').None? by { NoShortU(); }
  }

  lemma NoShortU()
    ensures Unescaped('u').None?
  {
  }

  lemma EscapeLengths(c: char, x: char)
    ensures |Escaped(c)| <= 6
    ensures c as int >= 32 && c != '"' && c != '\\' ==> |Escaped(c)| == 1
    ensures Unescaped(x) == Some(c) ==> |Escaped(c)| <= 2
    ensures |Escaped(c)| > 1 ==> forall i :: 0 <= i < |Escaped(c)| ==> !('A' <= Escaped(c)[i] <= 'F')
  {
  }

  /**
    Of the texts that read as one character the printed one is a shortest: what may stand for itself
    does, then come the escapes of two characters; the digits of longer ones are in lower case.
   */
  lemma EscapesAreShortest(c: char, e: string)
    requires ReadText(e + "\"") == Some(([c], ""))
    ensures |Escaped(c)| <= |e|
    ensures |Escaped(c)| > 1 ==> forall i :: 0 <= i < |Escaped(c)| ==> !('A' <= Escaped(c)[i] <= 'F')
  {
    hide ReadText, Escaped, Unescaped;
    var s := e + "\"";
    FirstIsRead(s);
    EscapeLengths(c, if |s| > 1 then s[1] else c);
    assert s[|e|] == '"';
  }

  lemma {:induction false} TextIsRead(t: string, r: string)
    ensures ReadText(EscapedText(t) + "\"" + r) == Some((t, r))
  {
    hide Escaped, Joined;
    if t == "" {
      assert EscapedText(t) + "\"" + r == "\"" + r;
    } else {
      var more := EscapedText(t[1..]) + "\"" + r;
      assert EscapedText(t) + "\"" + r == Escaped(t[0]) + more;
      TextIsRead(t[1..], r);
      EscapeIsRead(t[0], more);
      assert Joined(t[0], Some((t[1..], r))) == Some((t, r)) by {
        JoinedIs(t, r);
      }
    }
  }

  lemma JoinedIs(t: string, r: string)
    requires t != ""
    ensures Joined(t[0], Some((t[1..], r))) == Some((t, r))
  {
    assert [t[0]] + t[1..] == t;
  }

  lemma QuotedIsRead(t: string, r: string)
    ensures (Quoted(t) + r)[0] == '"' && ReadText((Quoted(t) + r)[1..]) == Some((t, r))
  {
    hide EscapedText, ReadText;
    TextIsRead(t, r);
    assert (Quoted(t) + r)[1..] == EscapedText(t) + "\"" + r;
  }

  lemma {:induction false} NumberIsRead(digits: string, r: string)
    requires (forall i :: 0 <= i < |digits| ==> digits[i] in "0123456789+-.e") && Ends(r)
    ensures NumberLength(digits + r) == |digits|
  {
    if digits == "" {
      assert digits + r == r;
    } else {
      assert (digits + r)[1..] == digits[1..] + r;
      NumberIsRead(digits[1..], r);
    }
  }

  // ----- Printed values are read back -----

  /** The keys of all objects in the value stand in the order of the collation. */
  predicate InOrder(v: Json, leq: KeyOrder)
    decreases v
  {
    match v
    case JsonArray(items) => forall i :: 0 <= i < |items| ==> InOrder(items[i], leq)
    case JsonObject(members) =>
      && (forall i, j :: 0 <= i < j < |members| ==> leq(members[i].key, members[j].key))
      && (forall i :: 0 <= i < |members| ==> InOrder(members[i].value, leq))
    case _ => true
  }

  predicate ReadAs(v: Json, w: Json, leq: KeyOrder) {
    Same(v, w) && InOrder(w, leq)
  }

  // One lemma for each way a value begins.

  lemma WordIsRead(v: Json, word: string, r: string)
    requires (v == JsonNull && word == "null") || (v == JsonBoolean(true) && word == "true")
             || (v == JsonBoolean(false) && word == "false")
    ensures ReadValue(word + r) == Some((v, r))
  {
    assert (word + r)[0] == word[0];
    assert (word + r)[|word|..] == r;
  }

  lemma NotAWord(c: char, s: string)
    requires s != "" && s[0] == c && c !in "ntf"
    ensures !("null" <= s) && !("true" <= s) && !("false" <= s)
  {
  }

  lemma TextValueIsRead(t: string, r: string)
    ensures ReadValue(Quoted(t) + r) == Some((JsonString(t), r))
  {
    hide ReadText, EscapedText;
    QuotedIsRead(t, r);
    NotAWord('"', Quoted(t) + r);
  }

  lemma NumberValueIsRead(digits: string, r: string)
    requires IsNumberText(digits) && Ends(r)
    ensures ReadValue(digits + r) == Some((JsonNumber(digits), r))
  {
    hide ReadValue;
    var s := digits + r;
    NumberIsRead(digits, r);
    assert s[0] == digits[0];
    assert s[..|digits|] == digits && s[|digits|..] == r;
    NumberStarts(s);
  }

  lemma NumberStarts(s: string)
    requires NumberLength(s) > 0
    ensures ReadValue(s) == Some((JsonNumber(s[..NumberLength(s)]), s[NumberLength(s)..]))
  {
    assert s[0] != '"' && s[0] != '[' && s[0] != '{';
    NotAWord(s[0], s);
  }

  lemma ArrayIsRead(s: string, items: seq<Json>, r: string)
    requires s != "" && s[0] == '[' && !("]" <= s[1..]) && ReadItems(s[1..]) == Some((items, r))
    ensures ReadValue(s) == Some((JsonArray(items), r))
  {
    hide ReadItems;
    NotAWord('[', s);
  }

  lemma ObjectIsRead(s: string, members: seq<Member>, r: string)
    requires s != "" && s[0] == '{' && !("}" <= s[1..]) && ReadMembers(s[1..]) == Some((members, r))
    ensures ReadValue(s) == Some((JsonObject(members), r))
  {
    hide ReadMembers;
    NotAWord('{', s);
  }

  lemma EmptyIsRead(r: string)
    ensures ReadValue("[]" + r) == Some((JsonArray([]), r))
    ensures ReadValue("{}" + r) == Some((JsonObject([]), r))
  {
    hide ReadItems, ReadMembers;
    NotAWord('[', "[]" + r);
    NotAWord('{', "{}" + r);
    assert ("[]" + r)[1..] == "]" + r && ("[]" + r)[2..] == r;
    assert ("{}" + r)[1..] == "}" + r && ("{}" + r)[2..] == r;
  }

  lemma LastItemIsRead(s: string, first: Json, r: string)
    requires ReadValue(s) == Some((first, "]" + r))
    ensures ReadItems(s) == Some(([first], r))
  {
    hide ReadValue;
    assert ("]" + r)[1..] == r;
  }

  lemma NextItemIsRead(s: string, first: Json, rest: string, others: seq<Json>, r: string)
    requires ReadValue(s) == Some((first, "," + rest)) && ReadItems(rest) == Some((others, r))
    ensures ReadItems(s) == Some(([first] + others, r))
  {
    hide ReadValue;
    assert ("," + rest)[1..] == rest;
  }

  lemma LastMemberIsRead(key: string, value: string, first: Json, r: string)
    requires ReadValue(value) == Some((first, "}" + r))
    ensures ReadMembers(Quoted(key) + (":" + value)) == Some(([Member(key, first)], r))
  {
    hide ReadValue, ReadText, Quoted;
    QuotedIsRead(key, ":" + value);
    assert (":" + value)[1..] == value;
    assert ("}" + r)[1..] == r;
  }

  lemma NextMemberIsRead(key: string, value: string, first: Json, rest: string, others: seq<Member>, r: string)
    requires ReadValue(value) == Some((first, "," + rest)) && ReadMembers(rest) == Some((others, r))
    ensures ReadMembers(Quoted(key) + (":" + value)) == Some(([Member(key, first)] + others, r))
  {
    hide ReadValue, ReadText, Quoted;
    QuotedIsRead(key, ":" + value);
    assert (":" + value)[1..] == value;
    assert ("," + rest)[1..] == rest;
  }

  /** A printed value that is neither array nor object is read back. */
  lemma ScalarIsRead(v: Json, leq: KeyOrder, r: string)
    requires Valid(v) && Ends(r) && !v.JsonArray? && !v.JsonObject?
    ensures ReadValue(Canonical(v, leq) + r) == Some((v, r))
  {
    hide ReadValue, Quoted;
    match v {
      case JsonNull => WordIsRead(v, "null", r);
      case JsonBoolean(flag) => WordIsRead(v, Canonical(v, leq), r);
      case JsonNumber(digits) => NumberValueIsRead(digits, r);
      case JsonString(text) => TextValueIsRead(text, r);
    }
  }

  lemma {:induction false} ValueIsRead(v: Json, leq: KeyOrder, r: string) returns (w: Json)
    requires Valid(v) && TotalOrder(leq) && Ends(r)
    ensures ReadValue(Canonical(v, leq) + r) == Some((w, r)) && ReadAs(v, w, leq)
    decreases v, 1, 0
  {
    hide ReadValue, ReadItems, ReadMembers, SortedBy, SortedMembers;
    if v.JsonArray? && v.items != [] {
      var ws := ItemsAreRead(v.items, leq, r);
      w := JsonArray(ws);
      hide CanonicalItems;
      NotClosed(v.items, leq, r);
      ArrayUnpacked(v, leq, r);
      ArrayIsRead(Canonical(v, leq) + r, ws, r);
      ReadAsArray(v, w, leq);
    } else if v.JsonObject? && v.members != [] {
      var sorted := SortedMembers(v, leq);
      KeysAreSorted(v, leq);
      var ws := MembersAreRead(v, sorted, leq, r);
      w := JsonObject(ws);
      NoBrace(v, sorted, leq, r);
      hide CanonicalMembers;
      ObjectUnpacked(v, leq, r);
      ObjectIsRead(Canonical(v, leq) + r, ws, r);
      ReadAsObject(v, sorted, w, leq);
    } else {
      w := v;
      if v.JsonArray? || v.JsonObject? {
        EmptyIsPrinted(v, leq);
        EmptyIsRead(r);
      } else {
        ScalarIsRead(v, leq, r);
      }
    }
  }

  lemma EmptyIsPrinted(v: Json, leq: KeyOrder)
    requires v == JsonArray([]) || v == JsonObject([])
    ensures Canonical(v, leq) == if v.JsonArray? then "[]" else "{}"
  {
  }

  lemma NotClosed(items: seq<Json>, leq: KeyOrder, r: string)
    requires items != [] && Valid(items[0])
    ensures !("]" <= CanonicalItems(items, leq) + "]" + r)
  {
    FirstCharacter(items[0], leq);
    hide Canonical;
    assert (CanonicalItems(items, leq) + "]" + r)[0] == Canonical(items[0], leq)[0];
  }

  lemma NoBrace(v: Json, members: seq<Member>, leq: KeyOrder, r: string)
    requires v.JsonObject? && members != [] && forall i :: 0 <= i < |members| ==> members[i] in v.members
    ensures !("}" <= CanonicalMembers(v, members, leq) + "}" + r)
  {
    hide EscapedText, Canonical;
    assert (CanonicalMembers(v, members, leq) + "}" + r)[0] == '"';
  }

  lemma ReadAsArray(v: Json, w: Json, leq: KeyOrder)
    requires v.JsonArray? && w.JsonArray? && |v.items| == |w.items|
    requires forall i :: 0 <= i < |v.items| ==> ReadAs(v.items[i], w.items[i], leq)
    ensures ReadAs(v, w, leq)
  {
  }

  lemma ReadAsObject(v: Json, sorted: seq<Member>, w: Json, leq: KeyOrder)
    requires TotalOrder(leq) && Valid(v) && v.JsonObject? && w.JsonObject? && sorted == SortedMembers(v, leq)
    requires |w.members| == |sorted|
    requires forall i :: 0 <= i < |sorted| ==>
               w.members[i].key == sorted[i].key && ReadAs(sorted[i].value, w.members[i].value, leq)
    ensures ReadAs(v, w, leq)
  {
    SameMembers(v, sorted, w, leq);
    SortedInOrder(v, sorted, w, leq);
    hide Valid, SortedMembers;
  }

  lemma SortedInOrder(v: Json, sorted: seq<Member>, w: Json, leq: KeyOrder)
    requires TotalOrder(leq) && Valid(v) && v.JsonObject? && w.JsonObject? && sorted == SortedMembers(v, leq)
    requires |w.members| == |sorted|
    requires forall i :: 0 <= i < |sorted| ==>
               w.members[i].key == sorted[i].key && InOrder(w.members[i].value, leq)
    ensures InOrder(w, leq)
  {
    hide Valid, SortedMembers, TotalOrder;
    SortedKeys(v, leq);
  }

  lemma SortedKeys(v: Json, leq: KeyOrder)
    requires TotalOrder(leq) && Valid(v) && v.JsonObject?
    ensures var sorted := SortedMembers(v, leq);
            forall i, j :: 0 <= i < j < |sorted| ==> leq(sorted[i].key, sorted[j].key)
  {
    hide Valid, SortedMembers, TotalOrder;
    KeysAreSorted(v, leq);
    var sorted := SortedMembers(v, leq);
    var keys := Keys(sorted);
    forall i, j | 0 <= i < j < |sorted| ensures leq(sorted[i].key, sorted[j].key) {
      assert leq(keys[i], keys[j]);
    }
  }

  lemma SameMembers(v: Json, sorted: seq<Member>, w: Json, leq: KeyOrder)
    requires TotalOrder(leq) && Valid(v) && v.JsonObject? && w.JsonObject? && sorted == SortedMembers(v, leq)
    requires |w.members| == |sorted|
    requires forall i :: 0 <= i < |sorted| ==>
               w.members[i].key == sorted[i].key && Same(sorted[i].value, w.members[i].value)
    ensures Same(v, w)
  {
    KeysAreSorted(v, leq);
    hide Valid, TotalOrder, SortedBy;
    forall i | 0 <= i < |v.members| ensures HasSame(w.members, v.members[i]) {
      SortMembers(v.members, ByKey(leq), v.members[i]);
      var j :| 0 <= j < |sorted| && sorted[j] == v.members[i];
      assert Same(v.members[i].value, w.members[j].value);
    }
  }

  lemma {:induction false} ItemsAreRead(items: seq<Json>, leq: KeyOrder, r: string) returns (ws: seq<Json>)
    requires items != [] && TotalOrder(leq) && forall i :: 0 <= i < |items| ==> Valid(items[i])
    ensures ReadItems(CanonicalItems(items, leq) + "]" + r) == Some((ws, r)) && |ws| == |items|
    ensures forall i :: 0 <= i < |items| ==> ReadAs(items[i], ws[i], leq)
    decreases items, 0, 0
  {
    hide ReadValue, ReadItems, Canonical, ReadAs;
    if |items| == 1 {
      assert CanonicalItems(items, leq) + "]" + r == Canonical(items[0], leq) + ("]" + r);
      var first := ValueIsRead(items[0], leq, "]" + r);
      LastItemIsRead(Canonical(items[0], leq) + ("]" + r), first, r);
      ws := [first];
    } else {
      var rest := CanonicalItems(items[1..], leq) + "]" + r;
      assert CanonicalItems(items, leq) + "]" + r == Canonical(items[0], leq) + ("," + rest);
      var first := ValueIsRead(items[0], leq, "," + rest);
      var others := ItemsAreRead(items[1..], leq, r);
      NextItemIsRead(Canonical(items[0], leq) + ("," + rest), first, rest, others, r);
      ws := [first] + others;
    }
  }

  lemma {:induction false} MembersAreRead(v: Json, members: seq<Member>, leq: KeyOrder, r: string)
    returns (ws: seq<Member>)
    requires v.JsonObject? && Valid(v) && TotalOrder(leq)
    requires members != [] && forall i :: 0 <= i < |members| ==> members[i] in v.members
    ensures ReadMembers(CanonicalMembers(v, members, leq) + "}" + r) == Some((ws, r)) && |ws| == |members|
    ensures forall i :: 0 <= i < |members| ==>
              ws[i].key == members[i].key && ReadAs(members[i].value, ws[i].value, leq)
    decreases v, 0, |members|
  {
    hide ReadValue, ReadMembers, Canonical, Quoted, ReadAs;
    var m := members[0];
    if |members| == 1 {
      var value := Canonical(m.value, leq) + ("}" + r);
      assert CanonicalMembers(v, members, leq) + "}" + r == Quoted(m.key) + (":" + value);
      var first := ValueIsRead(m.value, leq, "}" + r);
      LastMemberIsRead(m.key, value, first, r);
      ws := [Member(m.key, first)];
    } else {
      var rest := CanonicalMembers(v, members[1..], leq) + "}" + r;
      var value := Canonical(m.value, leq) + ("," + rest);
      assert CanonicalMembers(v, members, leq) + "}" + r == Quoted(m.key) + (":" + value);
      var first := ValueIsRead(m.value, leq, "," + rest);
      var others := MembersAreRead(v, members[1..], leq, r);
      NextMemberIsRead(m.key, value, first, rest, others, r);
      ws := [Member(m.key, first)] + others;
    }
  }

  /** What is printed for a configuration is JSON text that reads back as the same configuration, its keys in order. */
  lemma CanonicalIsRead(v: Json, leq: KeyOrder)
    requires Valid(v) && TotalOrder(leq)
    ensures var r := ReadValue(Canonical(v, leq));
            r.Some? && r.value.1 == "" && Same(v, r.value.0) && InOrder(r.value.0, leq)
  {
    var w := ValueIsRead(v, leq, "");
    assert Canonical(v, leq) + "" == Canonical(v, leq);
  }

  /** A stored ruleset that is inactive or prints otherwise is refused, naming the ruleset; no other is. */
  lemma DriftIff(existing: Option<Ruleset>, expected: Json, rulesetKey: string, leq: KeyOrder)
    requires TotalOrder(leq) && Valid(expected) && KeysDiffer(expected, leq)
    requires existing.Some? ==> Valid(existing.value.configuration)
    ensures var decision := DecideSeedAction(existing, expected, rulesetKey, leq);
            && (decision == Err(DriftError(rulesetKey)) <==>
                existing.Some? && !(existing.value.status == Active && Same(existing.value.configuration, expected)))
            && (decision.Err? ==> decision.error == DriftError(rulesetKey))
  {
    ReusedExactlyWhenSame(existing, expected, rulesetKey, leq);
    hide Canonical, Same, KeysDiffer;
  }
}
