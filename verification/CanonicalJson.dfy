/** The canonical text a sweep plan is sealed by: JSON with object keys in code-unit order. */
module CanonicalJson {
  import opened Sequences
  import opened Text

  /** JSON values as the runtime holds them; an object's members keep an order of their own. */
  datatype Value =
    | Null
    | Bool(b: bool)
    | Number(n: int)
    | Str(s: String)
    | Array(items: seq<Value>)
    | Object(members: seq<Member>)

  datatype Member = Member(key: String, value: Value)

  // ---------------------------------------------------------------------------------------------
  // Strings
  // ---------------------------------------------------------------------------------------------

  const QUOTE: CodeUnit := 0x22
  const BACKSLASH: CodeUnit := 0x5C

  predicate IsHigh(u: CodeUnit) { 0xD800 <= u < 0xDC00 }

  predicate IsLow(u: CodeUnit) { 0xDC00 <= u < 0xE000 }

  function HexDigit(d: int): CodeUnit
    requires 0 <= d < 16
  {
    if d < 10 then 0x30 + d else 0x57 + d
  }

  function Hex4(u: CodeUnit): String {
    [HexDigit(u / 0x1000), HexDigit(u / 0x100 % 16), HexDigit(u / 0x10 % 16), HexDigit(u % 16)]
  }

  /** The letter of a two-character escape, or 0. */
  function ShortEscape(u: CodeUnit): CodeUnit {
    if u == QUOTE then QUOTE
    else if u == BACKSLASH then BACKSLASH
    else if u == 0x08 then 0x62
    else if u == 0x09 then 0x74
    else if u == 0x0A then 0x6E
    else if u == 0x0C then 0x66
    else if u == 0x0D then 0x72
    else 0
  }

  /** How a unit that is not half of a surrogate pair is written. */
  function EscapeUnit(u: CodeUnit): String {
    if ShortEscape(u) != 0 then [BACKSLASH, ShortEscape(u)]
    else if u < 0x20 || IsHigh(u) || IsLow(u) then [BACKSLASH, 0x75] + Hex4(u)
    else [u]
  }

  /** How many units the first written piece of a string covers. */
  function PieceLength(s: String): nat
    requires |s| > 0
  {
    if |s| > 1 && IsHigh(s[0]) && IsLow(s[1]) then 2 else 1
  }

  function Piece(s: String): String
    requires |s| > 0
  {
    if PieceLength(s) == 2 then s[..2] else EscapeUnit(s[0])
  }

  function Escape(s: String): String {
    if |s| == 0 then [] else Piece(s) + Escape(s[PieceLength(s)..])
  }

  /** `JSON.stringify` of a string. */
  function Quoted(s: String): String {
    [QUOTE] + Escape(s) + [QUOTE]
  }

  // ---------------------------------------------------------------------------------------------
  // Numbers
  // ---------------------------------------------------------------------------------------------

  function Decimal(n: nat): String {
    if n < 10 then [0x30 + n] else Decimal(n / 10) + [0x30 + n % 10]
  }

  function NumberText(n: int): String {
    if n < 0 then [0x2D] + Decimal(-n) else Decimal(n)
  }

  // ---------------------------------------------------------------------------------------------
  // Values
  // ---------------------------------------------------------------------------------------------

  const NULL_TEXT: String := [0x6E, 0x75, 0x6C, 0x6C]
  const TRUE_TEXT: String := [0x74, 0x72, 0x75, 0x65]
  const FALSE_TEXT: String := [0x66, 0x61, 0x6C, 0x73, 0x65]
  const COMMA: CodeUnit := 0x2C
  const COLON: CodeUnit := 0x3A
  const OPEN_ARRAY: CodeUnit := 0x5B
  const CLOSE_ARRAY: CodeUnit := 0x5D
  const OPEN_OBJECT: CodeUnit := 0x7B
  const CLOSE_OBJECT: CodeUnit := 0x7D

  /** A member's key with the text of its value. */
  datatype Written = Written(key: String, text: String)

  predicate EarlierText(a: Written, b: Written) {
    Less(a.key, b.key)
  }

  function JoinWritten(ws: seq<Written>): String {
    if |ws| == 0 then []
    else if |ws| == 1 then Quoted(ws[0].key) + [COLON] + ws[0].text
    else Quoted(ws[0].key) + [COLON] + ws[0].text + [COMMA] + JoinWritten(ws[1..])
  }

  /** `canonicalJson`; members are written and then put in key order, which is the same as the other way round. */
  function Canonical(v: Value): String {
    match v
    case Null => NULL_TEXT
    case Bool(b) => if b then TRUE_TEXT else FALSE_TEXT
    case Number(n) => NumberText(n)
    case Str(s) => Quoted(s)
    case Array(items) => [OPEN_ARRAY] + CanonicalItems(items) + [CLOSE_ARRAY]
    case Object(members) => [OPEN_OBJECT] + JoinWritten(Sort(WriteMembers(members), EarlierText)) + [CLOSE_OBJECT]
  }

  function CanonicalItems(items: seq<Value>): String {
    if |items| == 0 then []
    else if |items| == 1 then Canonical(items[0])
    else Canonical(items[0]) + [COMMA] + CanonicalItems(items[1..])
  }

  function WriteMembers(members: seq<Member>): seq<Written> {
    if |members| == 0 then []
    else [Written(members[0].key, Canonical(members[0].value))] + WriteMembers(members[1..])
  }

  // ---------------------------------------------------------------------------------------------
  // Reading back
  // ---------------------------------------------------------------------------------------------

  lemma HexDigitUnique(a: int, b: int)
    requires 0 <= a < 16 && 0 <= b < 16 && HexDigit(a) == HexDigit(b)
    ensures a == b
  {
  }

  lemma Hex4Splits(u: CodeUnit)
    ensures u == 0x1000 * (u / 0x1000) + 0x100 * (u / 0x100 % 16) + 0x10 * (u / 0x10 % 16) + u % 16
  {
    assert u / 0x100 == u / 0x10 / 16 && u / 0x1000 == u / 0x100 / 16;
  }

  lemma Hex4Unique(a: CodeUnit, b: CodeUnit)
    requires Hex4(a) == Hex4(b)
    ensures a == b
  {
    hide HexDigit;
    Hex4Splits(a);
    Hex4Splits(b);
    assert Hex4(a)[0] == Hex4(b)[0] && Hex4(a)[1] == Hex4(b)[1] && Hex4(a)[2] == Hex4(b)[2] && Hex4(a)[3] == Hex4(b)[3];
    HexDigitUnique(a / 0x1000, b / 0x1000);
    HexDigitUnique(a / 0x100 % 16, b / 0x100 % 16);
    HexDigitUnique(a / 0x10 % 16, b / 0x10 % 16);
    HexDigitUnique(a % 16, b % 16);
  }

  /** A written piece is recognised where it stands, and never begins with the closing quote. */
  lemma PieceUnique(s: String, t: String, x: String, y: String)
    requires |s| > 0 && |t| > 0 && Piece(s) + x == Piece(t) + y
    ensures PieceLength(s) == PieceLength(t) && s[..PieceLength(s)] == t[..PieceLength(t)] && x == y
    ensures Piece(s)[0] != QUOTE
  {
    var p, q := Piece(s) + x, Piece(t) + y;
    assert p[0] == Piece(s)[0] && q[0] == Piece(t)[0];
    if PieceLength(s) == 2 {
      assert PieceLength(t) == 2;
      assert p[1] == s[1] && q[1] == t[1];
      assert x == p[2..] && y == q[2..];
    } else if |EscapeUnit(s[0])| == 1 {
      assert x == p[1..] && y == q[1..];
    } else {
      assert p[1] == EscapeUnit(s[0])[1] && q[1] == EscapeUnit(t[0])[1];
      if |EscapeUnit(s[0])| == 2 {
        assert x == p[2..] && y == q[2..];
      } else {
        assert p[2..6] == Hex4(s[0]) && q[2..6] == Hex4(t[0]);
        Hex4Unique(s[0], t[0]);
        assert x == p[6..] && y == q[6..];
      }
    }
  }

  lemma PieceStarts(s: String)
    requires |s| > 0
    ensures |Piece(s)| > 0 && Piece(s)[0] != QUOTE
  {
  }

  lemma Reassociate(p: String, e: String, x: String)
    requires |p| > 0
    ensures (p + e) + [QUOTE] + x == p + (e + [QUOTE] + x) && ((p + e) + [QUOTE] + x)[0] == p[0]
  {
  }

  lemma EscapeStarts(s: String, x: String)
    ensures |s| == 0 ==> Escape(s) + [QUOTE] + x == [QUOTE] + x
    ensures |s| > 0 ==>
      && Escape(s) + [QUOTE] + x == Piece(s) + (Escape(s[PieceLength(s)..]) + [QUOTE] + x)
      && (Escape(s) + [QUOTE] + x)[0] != QUOTE
  {
    hide Piece;
    if |s| > 0 {
      PieceStarts(s);
      Reassociate(Piece(s), Escape(s[PieceLength(s)..]), x);
    } else {
      assert Escape(s) + [QUOTE] == [QUOTE];
    }
  }

  /** A quoted string ends where it ends, whatever follows. */
  lemma {:induction false} EscapeUnique(s: String, t: String, x: String, y: String)
    requires Escape(s) + [QUOTE] + x == Escape(t) + [QUOTE] + y
    ensures s == t && x == y
  {
    hide Escape, Piece, EscapeUnit;
    EscapeStarts(s, x);
    EscapeStarts(t, y);
    if |s| == 0 {
      assert x == ([QUOTE] + x)[1..] && y == ([QUOTE] + y)[1..];
    } else {
      var s1, t1 := s[PieceLength(s)..], t[PieceLength(t)..];
      PieceUnique(s, t, Escape(s1) + [QUOTE] + x, Escape(t1) + [QUOTE] + y);
      EscapeUnique(s1, t1, x, y);
      assert s == s[..PieceLength(s)] + s1 && t == t[..PieceLength(t)] + t1;
    }
  }

  lemma QuotedUnique(s: String, t: String, x: String, y: String)
    requires Quoted(s) + x == Quoted(t) + y
    ensures s == t && x == y
  {
    hide Escape;
    assert (Quoted(s) + x)[1..] == Escape(s) + [QUOTE] + x;
    assert (Quoted(t) + y)[1..] == Escape(t) + [QUOTE] + y;
    EscapeUnique(s, t, x, y);
  }

  predicate IsDigit(u: CodeUnit) { 0x30 <= u < 0x3A }

  lemma {:induction false} DecimalIsDigits(n: nat)
    ensures |Decimal(n)| > 0 && forall i :: 0 <= i < |Decimal(n)| ==> IsDigit(Decimal(n)[i])
    ensures |Decimal(n)| == 1 <==> n < 10
  {
    if n >= 10 {
      DecimalIsDigits(n / 10);
    }
  }

  lemma {:induction false} DecimalUnique(n: nat, m: nat)
    requires Decimal(n) == Decimal(m)
    ensures n == m
  {
    DecimalIsDigits(n);
    DecimalIsDigits(m);
    if n >= 10 {
      var a, b := Decimal(n), Decimal(m);
      assert a == Decimal(n / 10) + [0x30 + n % 10] && b == Decimal(m / 10) + [0x30 + m % 10];
      assert a[|a| - 1] == 0x30 + n % 10 && b[|b| - 1] == 0x30 + m % 10;
      assert Decimal(n / 10) == a[..|a| - 1] && Decimal(m / 10) == b[..|b| - 1];
      DecimalUnique(n / 10, m / 10);
    }
  }

  predicate StartsWithDigit(x: String) {
    |x| > 0 && IsDigit(x[0])
  }

  lemma HeadOf(a: String, x: String)
    ensures a != [] ==> (a + x)[0] == a[0] && (a + x)[1..] == a[1..] + x
    ensures a == [] ==> a + x == x
  {
  }

  /** A run of digits ends where the digits end. */
  lemma {:induction false} DigitsEnd(a: String, x: String, b: String, y: String)
    requires a + x == b + y && !StartsWithDigit(x) && !StartsWithDigit(y)
    requires (forall i :: 0 <= i < |a| ==> IsDigit(a[i])) && (forall i :: 0 <= i < |b| ==> IsDigit(b[i]))
    ensures a == b && x == y
  {
    HeadOf(a, x);
    HeadOf(b, y);
    if a != [] && b != [] {
      DigitsEnd(a[1..], x, b[1..], y);
      assert a == [a[0]] + a[1..] && b == [b[0]] + b[1..];
    }
  }

  lemma DecimalEnds(n: nat, m: nat, x: String, y: String)
    requires Decimal(n) + x == Decimal(m) + y && !StartsWithDigit(x) && !StartsWithDigit(y)
    ensures n == m && x == y
  {
    DecimalIsDigits(n);
    DecimalIsDigits(m);
    DigitsEnd(Decimal(n), x, Decimal(m), y);
    DecimalUnique(n, m);
  }

  // Ordered values ------------------------------------------------------------------------------

  /** The plain text of a value, members in the order it has them. */
  function Plain(v: Value): String {
    match v
    case Null => NULL_TEXT
    case Bool(b) => if b then TRUE_TEXT else FALSE_TEXT
    case Number(n) => NumberText(n)
    case Str(s) => Quoted(s)
    case Array(items) => [OPEN_ARRAY] + PlainItems(items) + [CLOSE_ARRAY]
    case Object(members) => [OPEN_OBJECT] + JoinWritten(PlainMembers(members)) + [CLOSE_OBJECT]
  }

  function PlainItems(items: seq<Value>): String {
    if |items| == 0 then []
    else if |items| == 1 then Plain(items[0])
    else Plain(items[0]) + [COMMA] + PlainItems(items[1..])
  }

  function PlainMembers(members: seq<Member>): (r: seq<Written>)
    ensures |r| == |members|
  {
    if |members| == 0 then [] else [Written(members[0].key, Plain(members[0].value))] + PlainMembers(members[1..])
  }

  /** What may follow a value inside a document. */
  predicate Ends(x: String) {
    |x| == 0 || x[0] == COMMA || x[0] == CLOSE_ARRAY || x[0] == CLOSE_OBJECT
  }

  datatype Kind = NullKind | TrueKind | FalseKind | NumberKind | StringKind | ArrayKind | ObjectKind

  function KindOf(v: Value): Kind {
    match v
    case Null => NullKind
    case Bool(b) => if b then TrueKind else FalseKind
    case Number(_) => NumberKind
    case Str(_) => StringKind
    case Array(_) => ArrayKind
    case Object(_) => ObjectKind
  }

  function KindAt(u: CodeUnit): Kind {
    if u == 0x6E then NullKind else if u == 0x74 then TrueKind else if u == 0x66 then FalseKind
    else if u == QUOTE then StringKind else if u == OPEN_ARRAY then ArrayKind else if u == OPEN_OBJECT then ObjectKind
    else NumberKind
  }

  /** The first unit of a value's text tells its kind. */
  lemma FirstUnit(v: Value, x: String)
    ensures |Plain(v)| > 0 && (Plain(v) + x)[0] == Plain(v)[0] && KindAt(Plain(v)[0]) == KindOf(v)
    ensures !Ends(Plain(v))
  {
    if v.Number? {
      DecimalIsDigits(if v.n < 0 then -v.n else v.n);
    }
  }

  lemma Unwrap(open: CodeUnit, body: String, close: CodeUnit, x: String)
    ensures ([open] + body + [close] + x)[1..] == body + [close] + x
  {
  }

  /** A value's text ends where it ends and has one reading. */
  lemma {:induction false} PlainUnique(v: Value, w: Value, x: String, y: String)
    requires Plain(v) + x == Plain(w) + y && Ends(x) && Ends(y)
    ensures v == w && x == y
    decreases v
  {
    FirstUnit(v, x);
    FirstUnit(w, y);
    match v {
      case Null => assert x == (NULL_TEXT + x)[4..] && y == (NULL_TEXT + y)[4..];
      case Bool(b) =>
        var n := if b then 4 else 5;
        assert x == (Plain(v) + x)[n..] && y == (Plain(w) + y)[n..];
      case Number(n) => NumberEnds(n, w.n, x, y);
      case Str(s) => QuotedUnique(s, w.s, x, y);
      case Array(items) =>
        Unwrap(OPEN_ARRAY, PlainItems(items), CLOSE_ARRAY, x);
        Unwrap(OPEN_ARRAY, PlainItems(w.items), CLOSE_ARRAY, y);
        ItemsUnique(items, w.items, x, y);
      case Object(members) =>
        Unwrap(OPEN_OBJECT, JoinWritten(PlainMembers(members)), CLOSE_OBJECT, x);
        Unwrap(OPEN_OBJECT, JoinWritten(PlainMembers(w.members)), CLOSE_OBJECT, y);
        MembersUnique(members, w.members, x, y);
    }
  }

  lemma NumberEnds(n: int, m: int, x: String, y: String)
    requires NumberText(n) + x == NumberText(m) + y && Ends(x) && Ends(y)
    ensures n == m && x == y
  {
    DecimalIsDigits(if n < 0 then -n else n);
    DecimalIsDigits(if m < 0 then -m else m);
    hide Decimal;
    HeadOf(NumberText(n), x);
    HeadOf(NumberText(m), y);
    if n < 0 {
      assert NumberText(n)[1..] == Decimal(-n) && NumberText(m)[1..] == Decimal(-m);
      DecimalEnds(-n, -m, x, y);
    } else {
      DecimalEnds(n, m, x, y);
    }
  }

  /** What follows the first item. */
  function AfterItem(items: seq<Value>, x: String): String
    requires |items| > 0
  {
    if |items| == 1 then [CLOSE_ARRAY] + x else [COMMA] + (PlainItems(items[1..]) + [CLOSE_ARRAY] + x)
  }

  lemma ItemsStart(items: seq<Value>, x: String)
    ensures items == [] ==> PlainItems(items) + [CLOSE_ARRAY] + x == [CLOSE_ARRAY] + x
    ensures items != [] ==>
      && PlainItems(items) + [CLOSE_ARRAY] + x == Plain(items[0]) + AfterItem(items, x)
      && (PlainItems(items) + [CLOSE_ARRAY] + x)[0] != CLOSE_ARRAY
      && Ends(AfterItem(items, x))
  {
    hide Plain;
    if items != [] {
      FirstUnit(items[0], AfterItem(items, x));
      if |items| == 1 {
        JoinTwo(Plain(items[0]), [CLOSE_ARRAY], x);
      } else {
        JoinThree(Plain(items[0]), [COMMA], PlainItems(items[1..]), [CLOSE_ARRAY], x);
      }
    } else {
      assert PlainItems(items) + [CLOSE_ARRAY] == [CLOSE_ARRAY];
    }
  }

  lemma JoinTwo(a: String, close: String, x: String)
    ensures a + close + x == a + (close + x)
  {
  }

  lemma JoinThree(a: String, comma: String, rest: String, close: String, x: String)
    ensures (a + comma + rest) + close + x == a + (comma + (rest + close + x))
  {
  }

  lemma AfterItemUnique(items: seq<Value>, others: seq<Value>, x: String, y: String)
    requires items != [] && others != [] && AfterItem(items, x) == AfterItem(others, y)
    ensures |items| == 1 <==> |others| == 1
    ensures |items| == 1 ==> x == y
    ensures |items| > 1 ==> PlainItems(items[1..]) + [CLOSE_ARRAY] + x == PlainItems(others[1..]) + [CLOSE_ARRAY] + y
  {
    hide PlainItems;
    var a, b := AfterItem(items, x), AfterItem(others, y);
    assert a[0] == b[0];
    assert |items| == 1 ==> a[1..] == x && b[1..] == y;
    assert |items| > 1 ==>
      && a[1..] == PlainItems(items[1..]) + [CLOSE_ARRAY] + x
      && b[1..] == PlainItems(others[1..]) + [CLOSE_ARRAY] + y;
  }

  lemma {:induction false} ItemsUnique(items: seq<Value>, others: seq<Value>, x: String, y: String)
    requires PlainItems(items) + [CLOSE_ARRAY] + x == PlainItems(others) + [CLOSE_ARRAY] + y
    ensures items == others && x == y
    decreases items
  {
    hide Plain, PlainItems, AfterItem;
    ItemsStart(items, x);
    ItemsStart(others, y);
    if items == [] {
      assert x == ([CLOSE_ARRAY] + x)[1..] && y == ([CLOSE_ARRAY] + y)[1..];
    } else {
      PlainUnique(items[0], others[0], AfterItem(items, x), AfterItem(others, y));
      AfterItemUnique(items, others, x, y);
      if |items| > 1 {
        ItemsUnique(items[1..], others[1..], x, y);
      }
      assert items == [items[0]] + items[1..] && others == [others[0]] + others[1..];
    }
  }

  /** What follows the first member's value. */
  function AfterMember(members: seq<Member>, x: String): String
    requires |members| > 0
  {
    if |members| == 1 then [CLOSE_OBJECT] + x
    else [COMMA] + (JoinWritten(PlainMembers(members[1..])) + [CLOSE_OBJECT] + x)
  }

  lemma MembersStart(members: seq<Member>, x: String)
    ensures var text := JoinWritten(PlainMembers(members)) + [CLOSE_OBJECT] + x;
      && (members == [] ==> text == [CLOSE_OBJECT] + x)
      && (members != [] ==>
            && text == Quoted(members[0].key) + ([COLON] + (Plain(members[0].value) + AfterMember(members, x)))
            && text[0] == QUOTE && Ends(AfterMember(members, x)))
  {
    hide Plain, Quoted;
    if members != [] {
      var ws := PlainMembers(members);
      assert ws[0] == Written(members[0].key, Plain(members[0].value)) && ws[1..] == PlainMembers(members[1..]);
      QuotedStarts(members[0].key);
      if |members| == 1 {
        JoinOne(ws[0], x);
      } else {
        JoinMore(ws[0], JoinWritten(ws[1..]), x);
      }
    } else {
      assert JoinWritten(PlainMembers(members)) + [CLOSE_OBJECT] == [CLOSE_OBJECT];
    }
  }

  lemma QuotedStarts(s: String)
    ensures |Quoted(s)| > 0 && Quoted(s)[0] == QUOTE
  {
  }

  lemma JoinOne(w: Written, x: String)
    ensures (Quoted(w.key) + [COLON] + w.text) + [CLOSE_OBJECT] + x
      == Quoted(w.key) + ([COLON] + (w.text + ([CLOSE_OBJECT] + x)))
  {
    hide Quoted;
  }

  lemma JoinMore(w: Written, rest: String, x: String)
    ensures (Quoted(w.key) + [COLON] + w.text + [COMMA] + rest) + [CLOSE_OBJECT] + x
         == Quoted(w.key) + ([COLON] + (w.text + ([COMMA] + (rest + [CLOSE_OBJECT] + x))))
  {
    hide Quoted;
  }

  lemma AfterMemberUnique(members: seq<Member>, others: seq<Member>, x: String, y: String)
    requires members != [] && others != [] && AfterMember(members, x) == AfterMember(others, y)
    ensures |members| == 1 <==> |others| == 1
    ensures |members| == 1 ==> x == y
    ensures |members| > 1 ==>
      JoinWritten(PlainMembers(members[1..])) + [CLOSE_OBJECT] + x
      == JoinWritten(PlainMembers(others[1..])) + [CLOSE_OBJECT] + y
  {
    hide JoinWritten, PlainMembers;
    var a, b := AfterMember(members, x), AfterMember(others, y);
    assert a[0] == b[0];
    assert |members| == 1 ==> a[1..] == x && b[1..] == y;
    assert |members| > 1 ==>
      && a[1..] == JoinWritten(PlainMembers(members[1..])) + [CLOSE_OBJECT] + x
      && b[1..] == JoinWritten(PlainMembers(others[1..])) + [CLOSE_OBJECT] + y;
  }

  lemma {:induction false} MembersUnique(members: seq<Member>, others: seq<Member>, x: String, y: String)
    requires JoinWritten(PlainMembers(members)) + [CLOSE_OBJECT] + x
      == JoinWritten(PlainMembers(others)) + [CLOSE_OBJECT] + y
    ensures members == others && x == y
    decreases members
  {
    hide Plain, PlainMembers, JoinWritten, Quoted, AfterMember;
    MembersStart(members, x);
    MembersStart(others, y);
    if members == [] {
      assert x == ([CLOSE_OBJECT] + x)[1..] && y == ([CLOSE_OBJECT] + y)[1..];
    } else {
      var a, b := AfterMember(members, x), AfterMember(others, y);
      var p, q := Plain(members[0].value) + a, Plain(others[0].value) + b;
      QuotedUnique(members[0].key, others[0].key, [COLON] + p, [COLON] + q);
      assert p == ([COLON] + p)[1..] && q == ([COLON] + q)[1..];
      PlainUnique(members[0].value, others[0].value, a, b);
      AfterMemberUnique(members, others, x, y);
      if |members| > 1 {
        MembersUnique(members[1..], others[1..], x, y);
      }
      assert members == [members[0]] + members[1..] && others == [others[0]] + others[1..];
    }
  }

  // ---------------------------------------------------------------------------------------------
  // Key order
  // ---------------------------------------------------------------------------------------------

  /** No object in the value has a key twice, as in the runtime. */
  ghost predicate WellFormed(v: Value) {
    match v
    case Array(items) => forall i :: 0 <= i < |items| ==> WellFormed(items[i])
    case Object(members) =>
      && DistinctKeys(members)
      && forall i :: 0 <= i < |members| ==> WellFormed(members[i].value)
    case _ => true
  }

  ghost predicate DistinctKeys(members: seq<Member>) {
    forall i, j :: 0 <= i < j < |members| ==> members[i].key != members[j].key
  }

  /** Equal up to the order of object members, at every depth. */
  ghost predicate Equivalent(v: Value, w: Value) {
    match v
    case Array(items) =>
      w.Array? && |items| == |w.items| && forall i :: 0 <= i < |items| ==> Equivalent(items[i], w.items[i])
    case Object(members) =>
      && w.Object? && |members| == |w.members|
      && forall i :: 0 <= i < |members| ==>
           exists j :: 0 <= j < |w.members| && members[i].key == w.members[j].key
             && Equivalent(members[i].value, w.members[j].value)
    case _ => v == w
  }

  predicate EarlierKey(a: Member, b: Member) {
    Less(a.key, b.key)
  }

  function SortMembers(ms: seq<Member>): seq<Member> {
    Sort(ms, EarlierKey)
  }

  /** The value with the members of every object in key order. */
  function Ordered(v: Value): Value {
    match v
    case Array(items) => Array(OrderedItems(items))
    case Object(members) => Object(SortMembers(OrderedMembers(members)))
    case _ => v
  }

  function OrderedItems(items: seq<Value>): (r: seq<Value>)
    ensures |r| == |items| && forall i :: 0 <= i < |r| ==> r[i] == Ordered(items[i])
  {
    if |items| == 0 then [] else [Ordered(items[0])] + OrderedItems(items[1..])
  }

  function OrderedMembers(members: seq<Member>): (r: seq<Member>)
    ensures |r| == |members| && forall i :: 0 <= i < |r| ==> r[i] == Member(members[i].key, Ordered(members[i].value))
  {
    if |members| == 0 then [] else [Member(members[0].key, Ordered(members[0].value))] + OrderedMembers(members[1..])
  }

  lemma {:induction false} InsertCommutes(m: Member, sorted: seq<Member>)
    ensures PlainMembers(Insert(m, sorted, EarlierKey))
      == Insert(Written(m.key, Plain(m.value)), PlainMembers(sorted), EarlierText)
  {
    if |sorted| > 0 && Less(sorted[0].key, m.key) {
      InsertCommutes(m, sorted[1..]);
      assert PlainMembers(sorted)[1..] == PlainMembers(sorted[1..]);
      var rest := Insert(m, sorted[1..], EarlierKey);
      assert ([sorted[0]] + rest)[1..] == rest;
    } else {
      assert ([m] + sorted)[1..] == sorted;
    }
  }

  lemma {:induction false} SortCommutes(ms: seq<Member>)
    ensures PlainMembers(SortMembers(ms)) == Sort(PlainMembers(ms), EarlierText)
  {
    if |ms| > 0 {
      SortCommutes(ms[1..]);
      InsertCommutes(ms[0], SortMembers(ms[1..]));
      assert PlainMembers(ms)[1..] == PlainMembers(ms[1..]);
    }
  }

  /** The canonical text is the plain text of the ordered value. */
  lemma {:induction false} CanonicalIsPlainOrdered(v: Value)
    ensures Canonical(v) == Plain(Ordered(v))
    decreases v
  {
    match v {
      case Array(items) => ItemsArePlainOrdered(items);
      case Object(members) =>
        MembersArePlainOrdered(members);
        SortCommutes(OrderedMembers(members));
      case _ =>
    }
  }

  lemma {:induction false} ItemsArePlainOrdered(items: seq<Value>)
    ensures CanonicalItems(items) == PlainItems(OrderedItems(items))
    decreases items
  {
    if |items| > 0 {
      CanonicalIsPlainOrdered(items[0]);
      ItemsArePlainOrdered(items[1..]);
      assert OrderedItems(items)[1..] == OrderedItems(items[1..]);
    }
  }

  lemma {:induction false} MembersArePlainOrdered(members: seq<Member>)
    ensures WriteMembers(members) == PlainMembers(OrderedMembers(members))
    decreases members
  {
    if |members| > 0 {
      CanonicalIsPlainOrdered(members[0].value);
      MembersArePlainOrdered(members[1..]);
      assert OrderedMembers(members)[1..] == OrderedMembers(members[1..]);
    }
  }

  lemma KeysAreOrdered()
    ensures StrictOrder(EarlierKey)
  {
    forall m: Member ensures !EarlierKey(m, m) {
      LessTotal(m.key, m.key);
    }
    forall a: Member, b: Member, c: Member | EarlierKey(a, b) && EarlierKey(b, c) ensures EarlierKey(a, c) {
      LessTransitive(a.key, b.key, c.key);
    }
  }

  lemma DistinctKeysCompare(ms: seq<Member>)
    requires DistinctKeys(ms)
    ensures Comparable(ms, EarlierKey)
  {
    forall i, j | 0 <= i < j < |ms| ensures EarlierKey(ms[i], ms[j]) || EarlierKey(ms[j], ms[i]) {
      LessTotal(ms[i].key, ms[j].key);
    }
  }

  lemma SortedEqualExactlyWhenSameMembers(a: seq<Member>, b: seq<Member>)
    requires DistinctKeys(a) && DistinctKeys(b)
    ensures SortMembers(a) == SortMembers(b) <==> Elements(a) == Elements(b)
    ensures SortMembers(a) == SortMembers(b) ==> |a| == |b|
  {
    hide StrictOrder, Comparable, Ascending, Sort, Elements, DistinctKeys;
    KeysAreOrdered();
    DistinctKeysCompare(a);
    DistinctKeysCompare(b);
    SortSorts(a, EarlierKey);
    SortSorts(b, EarlierKey);
    if Elements(a) == Elements(b) {
      AscendingIsUnique(SortMembers(a), SortMembers(b), EarlierKey);
    }
  }

  lemma SubsetBySize(a: seq<Member>, b: seq<Member>)
    requires DistinctKeys(a) && DistinctKeys(b) && |a| == |b| && forall m :: m in a ==> m in b
    ensures Elements(a) == Elements(b)
  {
    ElementsCount(a);
    ElementsCount(b);
    var x, y := Elements(a), Elements(b);
    assert y == x + (y - x) && |y| == |x| + |y - x|;
  }

  /** Key order is the only freedom `Equivalent` leaves: ordering the keys decides it. */
  lemma {:induction false} EquivalentExactlyWhenOrderedEqual(v: Value, w: Value)
    requires WellFormed(v) && WellFormed(w)
    ensures Equivalent(v, w) <==> Ordered(v) == Ordered(w)
    decreases v
  {
    if v.Array? && w.Array? {
      if |v.items| == |w.items| {
        forall i | 0 <= i < |v.items|
          ensures Equivalent(v.items[i], w.items[i]) <==> Ordered(v.items[i]) == Ordered(w.items[i])
        {
          EquivalentExactlyWhenOrderedEqual(v.items[i], w.items[i]);
        }
        assert OrderedItems(v.items) == OrderedItems(w.items) <==>
          forall i :: 0 <= i < |v.items| ==> OrderedItems(v.items)[i] == OrderedItems(w.items)[i];
      } else {
        assert |OrderedItems(v.items)| != |OrderedItems(w.items)|;
      }
    } else if v.Object? && w.Object? {
      forall i, j | 0 <= i < |v.members| && 0 <= j < |w.members|
        ensures Equivalent(v.members[i].value, w.members[j].value) <==>
          Ordered(v.members[i].value) == Ordered(w.members[j].value)
      {
        EquivalentExactlyWhenOrderedEqual(v.members[i].value, w.members[j].value);
      }
      MembersMatchExactlyWhenSortedEqual(v.members, w.members);
    }
  }

  ghost predicate Matched(a: seq<Member>, b: seq<Member>) {
    && |a| == |b|
    && forall i :: 0 <= i < |a| ==>
         exists j :: 0 <= j < |b| && a[i].key == b[j].key && Equivalent(a[i].value, b[j].value)
  }

  lemma MembersMatchExactlyWhenSortedEqual(a: seq<Member>, b: seq<Member>)
    requires DistinctKeys(a) && DistinctKeys(b)
    requires forall i, j :: 0 <= i < |a| && 0 <= j < |b| ==>
      (Equivalent(a[i].value, b[j].value) <==> Ordered(a[i].value) == Ordered(b[j].value))
    ensures Matched(a, b) <==> SortMembers(OrderedMembers(a)) == SortMembers(OrderedMembers(b))
  {
    var x, y := OrderedMembers(a), OrderedMembers(b);
    SortedEqualExactlyWhenSameMembers(x, y);
    hide SortMembers, Ordered;
    if Matched(a, b) {
      forall m | m in x ensures m in y {
        var i :| 0 <= i < |x| && x[i] == m;
        var j :| 0 <= j < |b| && a[i].key == b[j].key && Equivalent(a[i].value, b[j].value);
        assert y[j] == m;
      }
      SubsetBySize(x, y);
    }
    if SortMembers(x) == SortMembers(y) {
      forall i | 0 <= i < |a|
        ensures exists j :: 0 <= j < |b| && a[i].key == b[j].key && Equivalent(a[i].value, b[j].value)
      {
        assert x[i] in Elements(x) && x[i] in Elements(y);
        var j :| 0 <= j < |y| && y[j] == x[i];
        assert Equivalent(a[i].value, b[j].value);
      }
    }
  }

  /** The seal: two values have the same canonical text exactly when they differ at most in key order. */
  lemma CanonicalTextDecides(v: Value, w: Value)
    requires WellFormed(v) && WellFormed(w)
    ensures Canonical(v) == Canonical(w) <==> Equivalent(v, w)
  {
    CanonicalIsPlainOrdered(v);
    CanonicalIsPlainOrdered(w);
    EquivalentExactlyWhenOrderedEqual(v, w);
    if Canonical(v) == Canonical(w) {
      assert Plain(Ordered(v)) + [] == Plain(Ordered(w)) + [];
      PlainUnique(Ordered(v), Ordered(w), [], []);
    }
  }
}
