/** Canonical JSON (RFC 8259): compact, keys in code-point order. The printed text determines the
    value, and does not depend on the order in which a dictionary was filled. */
module CanonicalJson {
  import opened Basics

  /** A JSON value. Numbers are kept as their printed tokens. */
  datatype Json =
    | Null
    | Bool(b: bool)
    | Num(text: string)
    | Str(s: string)
    | Arr(items: seq<Json>)
    | Obj(members: map<string, Json>)

  predicate NumberChar(c: char) { '0' <= c <= '9' || c == '-' || c == '+' || c == '.' || c == 'e' || c == 'E' }

  predicate NumberText(t: string) {
    t != [] && ('0' <= t[0] <= '9' || t[0] == '-') && forall i :: 0 <= i < |t| ==> NumberChar(t[i])
  }

  ghost predicate WellFormed(v: Json)
    decreases v
  {
    match v
    case Num(text) => NumberText(text)
    case Arr(items) => forall i :: 0 <= i < |items| ==> WellFormed(items[i])
    case Obj(members) => forall k :: k in members ==> WellFormed(members[k])
    case _ => true
  }

  // ----- the order of keys -----

  /** Code-point order. */
  predicate Less(a: string, b: string) {
    b != [] && (a == [] || a[0] < b[0] || (a[0] == b[0] && Less(a[1..], b[1..])))
  }

  lemma {:induction false} LessTotal(a: string, b: string)
    ensures (a == b || Less(a, b) || Less(b, a)) && !(Less(a, b) && Less(b, a)) && !Less(a, a)
    decreases |a|
  {
    if a != [] {
      LessTotal(a[1..], a[1..]);
      if b != [] && a[0] == b[0] {
        LessTotal(a[1..], b[1..]);
        assert a == [a[0]] + a[1..] && b == [b[0]] + b[1..];
      }
    }
  }

  lemma {:induction false} LessTransitive(a: string, b: string, c: string)
    requires Less(a, b) && Less(b, c)
    ensures Less(a, c)
    decreases |a|
  {
    if a != [] && a[0] == b[0] == c[0] {
      LessTransitive(a[1..], b[1..], c[1..]);
    }
  }

  /** Strictly increasing. */
  predicate Sorted(keys: seq<string>)
    decreases |keys|
  {
    |keys| < 2 || (Less(keys[0], keys[1]) && Sorted(keys[1..]))
  }

  function Insert(keys: seq<string>, k: string): seq<string>
    decreases |keys|
  {
    if keys == [] then [k]
    else if Less(k, keys[0]) then [k] + keys
    else if k == keys[0] then keys
    else [keys[0]] + Insert(keys[1..], k)
  }

  lemma {:induction false} InsertSorts(keys: seq<string>, k: string)
    requires Sorted(keys)
    ensures Sorted(Insert(keys, k))
    ensures forall x :: x in Insert(keys, k) <==> x in keys || x == k
    ensures keys != [] ==> Insert(keys, k)[0] == if Less(k, keys[0]) then k else keys[0]
    decreases |keys|
  {
    if keys != [] {
      LessTotal(k, keys[0]);
      assert keys == [keys[0]] + keys[1..];
      if Less(k, keys[0]) {
        assert ([k] + keys)[1..] == keys;
      } else if k != keys[0] {
        var rest := Insert(keys[1..], k);
        InsertSorts(keys[1..], k);
        assert ([keys[0]] + rest)[1..] == rest;
        if |keys| > 1 {
          assert rest[0] == k || rest[0] == keys[1];
        }
      }
    }
  }

  /** The distinct strings of a list, in order. */
  function SortStrings(keys: seq<string>): seq<string>
    decreases |keys|
  {
    if keys == [] then [] else Insert(SortStrings(keys[..|keys| - 1]), keys[|keys| - 1])
  }

  lemma {:induction false} SortStringsSorts(keys: seq<string>)
    ensures Sorted(SortStrings(keys))
    ensures forall x :: x in SortStrings(keys) <==> x in keys
    decreases |keys|
  {
    if keys != [] {
      SortStringsSorts(keys[..|keys| - 1]);
      InsertSorts(SortStrings(keys[..|keys| - 1]), keys[|keys| - 1]);
      assert keys == keys[..|keys| - 1] + [keys[|keys| - 1]];
    }
  }

  lemma {:induction false} HeadIsLeast(keys: seq<string>, x: string)
    requires Sorted(keys) && x in keys
    ensures x == keys[0] || Less(keys[0], x)
    decreases |keys|
  {
    if x != keys[0] {
      assert keys == [keys[0]] + keys[1..];
      HeadIsLeast(keys[1..], x);
      if x != keys[1] {
        LessTransitive(keys[0], keys[1], x);
      }
    }
  }

  lemma TailWithoutHead(keys: seq<string>, x: string)
    requires Sorted(keys) && keys != []
    ensures x in keys[1..] <==> x in keys && x != keys[0]
  {
    assert keys == [keys[0]] + keys[1..];
    if x in keys[1..] {
      HeadIsLeast(keys[1..], x);
      if x != keys[1] {
        LessTransitive(keys[0], keys[1], x);
      }
      LessTotal(keys[0], x);
    }
  }

  /** A set of strings has one sorted list. */
  lemma {:induction false} SortedIsUnique(a: seq<string>, b: seq<string>)
    requires Sorted(a) && Sorted(b) && forall x :: x in a <==> x in b
    ensures a == b
    decreases |a|
  {
    assert b != [] ==> b[0] in b;
    if a != [] {
      assert a[0] in b;
      HeadIsLeast(a, b[0]);
      HeadIsLeast(b, a[0]);
      LessTotal(a[0], b[0]);
      forall x ensures x in a[1..] <==> x in b[1..] {
        TailWithoutHead(a, x);
        TailWithoutHead(b, x);
      }
      SortedIsUnique(a[1..], b[1..]);
      assert a == [a[0]] + a[1..] && b == [b[0]] + b[1..];
    }
  }

  ghost predicate Lists(keys: seq<string>, s: set<string>) { forall x :: x in keys <==> x in s }

  lemma {:induction false} SortedExists(s: set<string>) returns (keys: seq<string>)
    ensures Sorted(keys) && Lists(keys, s)
    decreases |s|
  {
    if s == {} {
      keys := [];
    } else {
      var x :| x in s;
      var rest := SortedExists(s - {x});
      InsertSorts(rest, x);
      keys := Insert(rest, x);
    }
  }

  lemma SomeSorted(s: set<string>)
    ensures exists keys :: Sorted(keys) && Lists(keys, s)
  {
    var keys := SortedExists(s);
  }

  /** The members of a set in order. */
  ghost function SortedKeys(s: set<string>): (keys: seq<string>)
    ensures Sorted(keys) && Lists(keys, s)
  {
    SomeSorted(s);
    var keys :| Sorted(keys) && Lists(keys, s);
    keys
  }

  /** Sorting the keys in any order of insertion gives the same list. */
  lemma InsertionOrderIsIgnored(keys: seq<string>, s: set<string>)
    requires Lists(keys, s)
    ensures SortStrings(keys) == SortedKeys(s)
  {
    SortStringsSorts(keys);
    SortedIsUnique(SortStrings(keys), SortedKeys(s));
  }

  // ----- strings -----

  function Hex(n: int): char
    requires 0 <= n < 16
  {
    if n < 10 then '0' + n as char else 'a' + (n - 10) as char
  }

  /** The letter of a short escape, if the character has one. */
  function Short(c: char): char {
    if c == '"' then '"' else if c == '\\' then '\\' else if c == '\n' then 'n' else if c == '\r' then 'r'
    else if c == '\t' then 't' else if c == '\U{08}' then 'b' else if c == '\U{0C}' then 'f' else '-'
  }

  function Escape(c: char): string {
    if Short(c) != '-' then ['\\', Short(c)]
    else if c < ' ' then ['\\', 'u', '0', '0', Hex(c as int / 16), Hex(c as int % 16)]
    else [c]
  }

  lemma Cancel<T>(p: seq<T>, s: seq<T>, t: seq<T>)
    requires p + s == p + t
    ensures s == t
  {
    assert (p + s)[|p|..] == s && (p + t)[|p|..] == t;
  }

  /** The escaped characters and the closing quote. */
  function Body(s: string): string { if s == [] then ['"'] else Escape(s[0]) + Body(s[1..]) }

  function Quote(s: string): string { ['"'] + Body(s) }

  // ----- values -----

  /** Between two items, and not before the first. */
  function Comma(i: nat): string { if i == 0 then [] else [','] }

  /** A key, its colon and a value's text. */
  function Entry(key: string, rest: string): string { ['"'] + (Body(key) + ([':'] + rest)) }

  /** The compact text of a value. */
  ghost function Print(v: Json): string
    decreases v, 1, 0
  {
    match v
    case Null => "null"
    case Bool(b) => if b then "true" else "false"
    case Num(text) => text
    case Str(s) => Quote(s)
    case Arr(items) => ['['] + Items(v, 0)
    case Obj(members) => ['{'] + Members(v, SortedKeys(members.Keys), 0)
  }

  /** The items from `i` on, and the closing bracket. */
  ghost function Items(v: Json, i: nat): string
    requires v.Arr? && i <= |v.items|
    decreases v, 0, |v.items| - i
  {
    if i == |v.items| then [']'] else Comma(i) + (Print(v.items[i]) + Items(v, i + 1))
  }

  predicate Keyed(v: Json, keys: seq<string>) {
    v.Obj? && forall n :: 0 <= n < |keys| ==> keys[n] in v.members
  }

  /** The members under the keys from `i` on, and the closing brace. */
  ghost function Members(v: Json, keys: seq<string>, i: nat): string
    requires Keyed(v, keys) && i <= |keys|
    decreases v, 0, |keys| - i
  {
    if i == |keys| then ['}'] else Comma(i) + Entry(keys[i], Print(v.members[keys[i]]) + Members(v, keys, i + 1))
  }

  // ----- reading a text back -----

  /** What a reader found at the beginning of a text, and the text after it. */
  datatype Parsed<T> = NoParse | Parsed(value: T, rest: string)

  function HexValue(c: char): int {
    if '0' <= c <= '9' then c as int - '0' as int
    else if 'a' <= c <= 'f' then c as int - 'a' as int + 10
    else if 'A' <= c <= 'F' then c as int - 'A' as int + 10
    else -1
  }

  /** The character of four hexadecimal digits. */
  function ReadCode(t: string): (r: Parsed<char>)
    ensures r.Parsed? ==> |r.rest| < |t|
  {
    if |t| < 4 || exists i :: 0 <= i < 4 && HexValue(t[i]) < 0 then NoParse
    else
      var n := ((HexValue(t[0]) * 16 + HexValue(t[1])) * 16 + HexValue(t[2])) * 16 + HexValue(t[3]);
      if n < 0xD800 || 0xDFFF < n < 0x1_0000 then Parsed(n as char, t[4..]) else NoParse
  }

  /** What an escape means, after its backslash. */
  function ReadEscape(t: string): (r: Parsed<char>)
    ensures r.Parsed? ==> |r.rest| < |t|
  {
    if t == [] then NoParse
    else if t[0] == 'u' then ReadCode(t[1..])
    else if t[0] == '"' || t[0] == '\\' || t[0] == '/' then Parsed(t[0], t[1..])
    else if t[0] == 'n' then Parsed('\n', t[1..])
    else if t[0] == 'r' then Parsed('\r', t[1..])
    else if t[0] == 't' then Parsed('\t', t[1..])
    else if t[0] == 'b' then Parsed('\U{08}', t[1..])
    else if t[0] == 'f' then Parsed('\U{0C}', t[1..])
    else NoParse
  }

  /** One character of a string. */
  function ReadChar(t: string): (r: Parsed<char>)
    ensures r.Parsed? ==> |r.rest| < |t|
  {
    if t == [] || t[0] == '"' || t[0] < ' ' then NoParse
    else if t[0] == '\\' then ReadEscape(t[1..])
    else Parsed(t[0], t[1..])
  }

  /** A string after its opening quote. */
  function ReadBody(t: string): (r: Parsed<string>)
    ensures r.Parsed? ==> |r.rest| < |t|
    decreases |t|
  {
    if t != [] && t[0] == '"' then Parsed([], t[1..])
    else
      match ReadChar(t)
      case NoParse => NoParse
      case Parsed(c, u) =>
        match ReadBody(u)
        case NoParse => NoParse
        case Parsed(s, w) => Parsed([c] + s, w)
  }

  /** How many characters of a number a text begins with. */
  function NumberLength(t: string): (n: nat)
    ensures n <= |t|
  {
    if t == [] || !NumberChar(t[0]) then 0 else 1 + NumberLength(t[1..])
  }

  function ReadNumber(t: string): (r: Parsed<Json>)
    ensures r.Parsed? ==> |r.rest| < |t|
  {
    var n := NumberLength(t);
    if NumberText(t[..n]) then Parsed(Num(t[..n]), t[n..]) else NoParse
  }

  /** A word, if the text begins with it. */
  function ReadWord(t: string, word: string, v: Json): (r: Parsed<Json>)
    requires word != []
    ensures r.Parsed? ==> |r.rest| < |t|
  {
    if word <= t then Parsed(v, t[|word|..]) else NoParse
  }

  /** A compact JSON value (RFC 8259). */
  function ReadValue(t: string): (r: Parsed<Json>)
    ensures r.Parsed? ==> |r.rest| < |t|
    decreases |t|, 0
  {
    if t == [] then NoParse
    else if t[0] == 'n' then ReadWord(t, "null", Null)
    else if t[0] == 't' then ReadWord(t, "true", Bool(true))
    else if t[0] == 'f' then ReadWord(t, "false", Bool(false))
    else if t[0] == '"' then
      match ReadBody(t[1..]) case NoParse => NoParse case Parsed(s, u) => Parsed(Str(s), u)
    else if t[0] == '[' then
      if |t| > 1 && t[1] == ']' then Parsed(Arr([]), t[2..])
      else match ReadItems(t[1..]) case NoParse => NoParse case Parsed(items, u) => Parsed(Arr(items), u)
    else if t[0] == '{' then
      if |t| > 1 && t[1] == '}' then Parsed(Obj(map[]), t[2..])
      else match ReadMembers(t[1..]) case NoParse => NoParse case Parsed(members, u) => Parsed(Obj(members), u)
    else ReadNumber(t)
  }

  /** One or more items, up to the closing bracket. */
  function ReadItems(t: string): (r: Parsed<seq<Json>>)
    ensures r.Parsed? ==> |r.rest| < |t|
    decreases |t|, 1
  {
    match ReadValue(t)
    case NoParse => NoParse
    case Parsed(v, u) =>
      if u != [] && u[0] == ']' then Parsed([v], u[1..])
      else if u != [] && u[0] == ',' then
        match ReadItems(u[1..]) case NoParse => NoParse case Parsed(items, w) => Parsed([v] + items, w)
      else NoParse
  }

  /** A key and its colon. */
  function ReadKey(t: string): (r: Parsed<string>)
    ensures r.Parsed? ==> |r.rest| < |t|
  {
    if t == [] || t[0] != '"' then NoParse
    else
      match ReadBody(t[1..])
      case NoParse => NoParse
      case Parsed(key, u) => if u != [] && u[0] == ':' then Parsed(key, u[1..]) else NoParse
  }

  /** One or more members, up to the closing brace. Of equal keys the last one counts. */
  function ReadMembers(t: string): (r: Parsed<map<string, Json>>)
    ensures r.Parsed? ==> |r.rest| < |t|
    decreases |t|, 1
  {
    match ReadKey(t)
    case NoParse => NoParse
    case Parsed(key, u) =>
      match ReadValue(u)
      case NoParse => NoParse
      case Parsed(v, w) =>
        if w != [] && w[0] == '}' then Parsed(map[key := v], w[1..])
        else if w != [] && w[0] == ',' then
          match ReadMembers(w[1..]) case NoParse => NoParse case Parsed(members, x) => Parsed(map[key := v] + members, x)
        else NoParse
  }

  // ----- reading inverts printing -----

  lemma ReadsHex(n: int)
    requires 0 <= n < 16
    ensures HexValue(Hex(n)) == n
  {
  }

  lemma ReadsControl(c: char, rest: string)
    requires c < ' '
    ensures ReadCode(['0', '0', Hex(c as int / 16), Hex(c as int % 16)] + rest) == Parsed(c, rest)
  {
    var t := ['0', '0', Hex(c as int / 16), Hex(c as int % 16)] + rest;
    ReadsHex(c as int / 16);
    ReadsHex(c as int % 16);
    assert t[4..] == rest && t[0] == '0' && t[1] == '0';
  }

  lemma ReadsChar(c: char, rest: string)
    ensures ReadChar(Escape(c) + rest) == Parsed(c, rest)
  {
    var t := Escape(c) + rest;
    assert t[0] == Escape(c)[0];
    if Short(c) != '-' {
      assert t[1..] == [Short(c)] + rest && ([Short(c)] + rest)[1..] == rest;
    } else if c < ' ' {
      var code := ['0', '0', Hex(c as int / 16), Hex(c as int % 16)];
      assert t[1..] == ['u'] + (code + rest) && (['u'] + (code + rest))[1..] == code + rest;
      ReadsControl(c, rest);
    } else {
      assert t[1..] == rest;
    }
  }

  lemma {:induction false} ReadsBody(s: string, rest: string)
    ensures ReadBody(Body(s) + rest) == Parsed(s, rest)
    decreases |s|
  {
    if s == [] {
      assert (['"'] + rest)[1..] == rest;
    } else {
      Regroup(Escape(s[0]), Body(s[1..]), rest);
      ReadsChar(s[0], Body(s[1..]) + rest);
      ReadsBody(s[1..], rest);
      NotQuote(s[0], Body(s[1..]) + rest);
      assert s == [s[0]] + s[1..];
    }
  }

  lemma NotQuote(c: char, rest: string)
    ensures var t := Escape(c) + rest; t != [] && t[0] != '"'
  {
    assert (Escape(c) + rest)[0] == Escape(c)[0];
  }

  /** Escaped strings end at their closing quote and determine the string. */
  lemma BodyInjective(a: string, b: string, s: string, t: string)
    requires Body(a) + s == Body(b) + t
    ensures a == b && s == t
  {
    ReadsBody(a, s);
    ReadsBody(b, t);
  }

  /** What may follow a printed value. */
  predicate Stop(s: string) { s == [] || !NumberChar(s[0]) }

  lemma {:induction false} NumberEnds(text: string, rest: string)
    requires Stop(rest) && forall i :: 0 <= i < |text| ==> NumberChar(text[i])
    ensures NumberLength(text + rest) == |text|
    decreases |text|
  {
    if text == [] {
      assert text + rest == rest;
    } else {
      NumberEnds(text[1..], rest);
      assert (text + rest)[1..] == text[1..] + rest;
    }
  }

  lemma ReadsNumber(text: string, rest: string)
    requires NumberText(text) && Stop(rest)
    ensures ReadValue(text + rest) == Parsed(Num(text), rest)
  {
    NumberEnds(text, rest);
    assert (text + rest)[..|text|] == text && (text + rest)[|text|..] == rest && (text + rest)[0] == text[0];
  }

  lemma ReadsWord(word: string, v: Json, rest: string)
    requires word != []
    ensures ReadWord(word + rest, word, v) == Parsed(v, rest) && (word + rest)[0] == word[0]
  {
    assert (word + rest)[..|word|] == word && (word + rest)[|word|..] == rest;
  }

  lemma ReadsString(s: string, rest: string)
    ensures ReadValue(Quote(s) + rest) == Parsed(Str(s), rest)
  {
    Regroup(['"'], Body(s), rest);
    assert (['"'] + (Body(s) + rest))[1..] == Body(s) + rest;
    ReadsBody(s, rest);
  }

  lemma PrintBegins(v: Json)
    requires WellFormed(v)
    ensures Print(v) != [] && Print(v)[0] != ']'
  {
  }

  lemma ItemsTail(v: Json, i: nat, rest: string)
    requires v.Arr? && 0 < i <= |v.items|
    ensures Items(v, i) + rest ==
      if i == |v.items| then [']'] + rest else [','] + (Print(v.items[i]) + (Items(v, i + 1) + rest))
  {
    if i < |v.items| {
      Regroup([','], Print(v.items[i]) + Items(v, i + 1), rest);
      Regroup(Print(v.items[i]), Items(v, i + 1), rest);
    }
  }

  lemma FirstItem(v: Json, rest: string)
    requires v.Arr? && v.items != [] && WellFormed(v)
    ensures var t := Items(v, 0) + rest;
      t == Print(v.items[0]) + (Items(v, 1) + rest) && t != [] && t[0] != ']'
  {
    PrintBegins(v.items[0]);
    assert Items(v, 0) == Print(v.items[0]) + Items(v, 1);
    Regroup(Print(v.items[0]), Items(v, 1), rest);
  }

  lemma EntryPlus(key: string, x: string, rest: string, s: string)
    ensures Entry(key, x + rest) + s == Entry(key, x + (rest + s))
  {
    var y := x + rest;
    Regroup(['"'], Body(key) + ([':'] + y), s);
    Regroup(Body(key), [':'] + y, s);
    Regroup([':'], y, s);
    Regroup(x, rest, s);
  }

  lemma ReadsKey(key: string, rest: string)
    ensures ReadKey(Entry(key, rest)) == Parsed(key, rest)
  {
    assert Entry(key, rest)[1..] == Body(key) + ([':'] + rest);
    ReadsBody(key, [':'] + rest);
    assert ([':'] + rest)[1..] == rest;
  }

  /** The value under the key `i` and what follows it. */
  ghost function ValueFrom(v: Json, keys: seq<string>, i: nat, rest: string): string
    requires Keyed(v, keys) && i < |keys|
  {
    Print(v.members[keys[i]]) + (Members(v, keys, i + 1) + rest)
  }

  lemma MembersSplit(v: Json, keys: seq<string>, i: nat, rest: string)
    requires Keyed(v, keys) && i <= |keys|
    ensures Members(v, keys, i) + rest ==
      if i == |keys| then ['}'] + rest else Comma(i) + Entry(keys[i], ValueFrom(v, keys, i, rest))
  {
    if i < |keys| {
      var x, y := Print(v.members[keys[i]]), Members(v, keys, i + 1);
      Regroup(Comma(i), Entry(keys[i], x + y), rest);
      EntryPlus(keys[i], x, y, rest);
    }
  }

  lemma FirstMember(v: Json, keys: seq<string>, rest: string)
    requires Keyed(v, keys) && keys != []
    ensures Members(v, keys, 0) + rest == Entry(keys[0], ValueFrom(v, keys, 0, rest))
  {
    MembersSplit(v, keys, 0, rest);
    assert Comma(0) + Entry(keys[0], ValueFrom(v, keys, 0, rest)) == Entry(keys[0], ValueFrom(v, keys, 0, rest));
  }

  /** The members under the keys from `i` on. */
  function Under(v: Json, keys: seq<string>, i: nat): map<string, Json>
    requires Keyed(v, keys) && i <= |keys|
    decreases |keys| - i
  {
    if i == |keys| then map[] else map[keys[i] := v.members[keys[i]]] + Under(v, keys, i + 1)
  }

  lemma {:induction false} UnderMeaning(v: Json, keys: seq<string>, i: nat)
    requires Keyed(v, keys) && i <= |keys|
    ensures var m := Under(v, keys, i); forall k :: (k in m <==> k in keys[i..]) && (k in m ==> m[k] == v.members[k])
    decreases |keys| - i
  {
    if i < |keys| {
      UnderMeaning(v, keys, i + 1);
      DropStep(keys, i);
    }
  }

  lemma OneMember(v: Json, keys: seq<string>)
    requires Keyed(v, keys) && keys != []
    ensures var key := keys[|keys| - 1]; Under(v, keys, |keys| - 1) == map[key := v.members[key]]
  {
  }

  // One step of the readers.

  lemma StopAt(c: char, rest: string)
    requires !NumberChar(c)
    ensures Stop([c] + rest)
  {
  }

  lemma LastItem(t: string, v: Json, rest: string)
    requires ReadValue(t) == Parsed(v, [']'] + rest)
    ensures ReadItems(t) == Parsed([v], rest)
  {
    Behind([']'], rest);
  }

  lemma NextItem(t: string, v: Json, u: string, vs: seq<Json>, rest: string)
    requires ReadValue(t) == Parsed(v, [','] + u) && ReadItems(u) == Parsed(vs, rest)
    ensures ReadItems(t) == Parsed([v] + vs, rest)
  {
    Behind([','], u);
  }

  lemma LastMember(t: string, key: string, u: string, v: Json, rest: string)
    requires ReadKey(t) == Parsed(key, u) && ReadValue(u) == Parsed(v, ['}'] + rest)
    ensures ReadMembers(t) == Parsed(map[key := v], rest)
  {
    Behind(['}'], rest);
  }

  lemma NextMember(t: string, key: string, u: string, v: Json, w: string, m: map<string, Json>, rest: string)
    requires ReadKey(t) == Parsed(key, u) && ReadValue(u) == Parsed(v, [','] + w) && ReadMembers(w) == Parsed(m, rest)
    ensures ReadMembers(t) == Parsed(map[key := v] + m, rest)
  {
    Behind([','], w);
  }

  /** An array's text is read as its items are. */
  lemma ArrayStep(u: string, items: seq<Json>, rest: string)
    requires if items == [] then u == [']'] + rest else u != [] && u[0] != ']' && ReadItems(u) == Parsed(items, rest)
    ensures ReadValue(['['] + u) == Parsed(Arr(items), rest)
  {
    Behind(['['], u);
    if items == [] {
      Behind(['[', ']'], rest);
      Regroup(['['], [']'], rest);
    }
  }

  lemma ObjectStep(u: string, members: map<string, Json>, rest: string)
    requires if members == map[] then u == ['}'] + rest
             else u != [] && u[0] != '}' && ReadMembers(u) == Parsed(members, rest)
    ensures ReadValue(['{'] + u) == Parsed(Obj(members), rest)
  {
    Behind(['{'], u);
    if members == map[] {
      Behind(['{', '}'], rest);
      Regroup(['{'], ['}'], rest);
    }
  }

  lemma AllKeys(v: Json, keys: seq<string>)
    requires Keyed(v, keys) && Lists(keys, v.members.Keys)
    ensures Under(v, keys, 0) == v.members
    ensures keys == [] <==> v.members == map[]
  {
    UnderMeaning(v, keys, 0);
    assert keys[0..] == keys;
    if keys != [] { assert keys[0] in v.members; }
  }

  /** Reading the text of a value, whatever cannot continue it comes after, gives the value and what comes
      after. */
  lemma {:induction false} ReadsBack(v: Json, rest: string)
    requires WellFormed(v) && Stop(rest)
    ensures ReadValue(Print(v) + rest) == Parsed(v, rest)
    decreases v, 1, 0
  {
    match v
    case Null => ReadsWord("null", v, rest);
    case Bool(b) => if b { ReadsWord("true", v, rest); } else { ReadsWord("false", v, rest); }
    case Num(text) => ReadsNumber(text, rest);
    case Str(s) => ReadsString(s, rest);
    case Arr(items) =>
      Regroup(['['], Items(v, 0), rest);
      if items != [] {
        FirstItem(v, rest);
        ReadsItems(v, 0, rest);
        assert items[0..] == items;
      }
      ArrayStep(Items(v, 0) + rest, items, rest);
    case Obj(members) =>
      var keys := SortedKeys(members.Keys);
      Regroup(['{'], Members(v, keys, 0), rest);
      AllKeys(v, keys);
      if keys != [] {
        FirstMember(v, keys, rest);
        ReadsMembers(v, keys, 0, rest);
      }
      ObjectStep(Members(v, keys, 0) + rest, members, rest);
  }

  lemma {:induction false} ReadsItems(v: Json, i: nat, rest: string)
    requires v.Arr? && i < |v.items| && WellFormed(v)
    ensures ReadItems(Print(v.items[i]) + (Items(v, i + 1) + rest)) == Parsed(v.items[i..], rest)
    decreases v, 0, |v.items| - i
  {
    var x, t := v.items[i], Print(v.items[i]) + (Items(v, i + 1) + rest);
    ItemsTail(v, i + 1, rest);
    DropStep(v.items, i);
    if i + 1 == |v.items| {
      StopAt(']', rest);
      ReadsBack(x, [']'] + rest);
      LastItem(t, x, rest);
      assert v.items[i..] == [x];
    } else {
      var u := Print(v.items[i + 1]) + (Items(v, i + 2) + rest);
      StopAt(',', u);
      ReadsBack(x, [','] + u);
      ReadsItems(v, i + 1, rest);
      NextItem(t, x, u, v.items[i + 1..], rest);
    }
  }

  /** The last member, if its value is read. */
  lemma ReadsLast(v: Json, keys: seq<string>, i: nat, rest: string)
    requires Keyed(v, keys) && i + 1 == |keys|
    requires var x := v.members[keys[i]]; ReadValue(Print(x) + (['}'] + rest)) == Parsed(x, ['}'] + rest)
    ensures ReadMembers(Entry(keys[i], ValueFrom(v, keys, i, rest))) == Parsed(Under(v, keys, i), rest)
  {
    var key, u := keys[i], ValueFrom(v, keys, i, rest);
    MembersSplit(v, keys, i + 1, rest);
    ReadsKey(key, u);
    LastMember(Entry(key, u), key, u, v.members[key], rest);
    OneMember(v, keys);
  }

  /** A member before others, if its value and they are read. */
  lemma ReadsNext(v: Json, keys: seq<string>, i: nat, w: string, rest: string)
    requires Keyed(v, keys) && i + 1 < |keys| && w == Entry(keys[i + 1], ValueFrom(v, keys, i + 1, rest))
    requires var x := v.members[keys[i]]; ReadValue(Print(x) + ([','] + w)) == Parsed(x, [','] + w)
    requires ReadMembers(w) == Parsed(Under(v, keys, i + 1), rest)
    ensures ReadMembers(Entry(keys[i], ValueFrom(v, keys, i, rest))) == Parsed(Under(v, keys, i), rest)
  {
    var key, u := keys[i], ValueFrom(v, keys, i, rest);
    MembersSplit(v, keys, i + 1, rest);
    ReadsKey(key, u);
    NextMember(Entry(key, u), key, u, v.members[key], w, Under(v, keys, i + 1), rest);
  }

  lemma {:induction false} ReadsMembers(v: Json, keys: seq<string>, i: nat, rest: string)
    requires Keyed(v, keys) && i < |keys| && WellFormed(v)
    ensures ReadMembers(Entry(keys[i], ValueFrom(v, keys, i, rest))) == Parsed(Under(v, keys, i), rest)
    decreases v, 0, |keys| - i
  {
    if i + 1 == |keys| {
      StopAt('}', rest);
      ReadsBack(v.members[keys[i]], ['}'] + rest);
      ReadsLast(v, keys, i, rest);
    } else {
      var w := Entry(keys[i + 1], ValueFrom(v, keys, i + 1, rest));
      StopAt(',', w);
      ReadsBack(v.members[keys[i]], [','] + w);
      ReadsMembers(v, keys, i + 1, rest);
      ReadsNext(v, keys, i, w, rest);
    }
  }

  /** Two values whose texts agree, up to text that cannot continue a value, are the same. */
  lemma PrintedApart(v: Json, w: Json, s: string, t: string)
    requires WellFormed(v) && WellFormed(w) && Stop(s) && Stop(t)
    requires Print(v) + s == Print(w) + t
    ensures v == w && s == t
  {
    ReadsBack(v, s);
    ReadsBack(w, t);
  }

  /** The canonical text is injective. */
  lemma PrintInjective(v: Json, w: Json)
    requires WellFormed(v) && WellFormed(w)
    ensures Print(v) == Print(w) <==> v == w
  {
    if Print(v) == Print(w) {
      PrintedApart(v, w, [], []);
    }
  }
}
