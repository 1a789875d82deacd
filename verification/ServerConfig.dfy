/** Server/CServerConfig.cpp: the recursive-descent reader that flattens nested objects to dotted settings. */
module ServerConfig {
  import opened Words

  type Settings = map<string, string>

  const ARRAY_PATH: string := "__array."

  // ----- What the reader does, on the text that is left -----

  /** isspace in the C locale. */
  predicate IsSpace(c: char) { c == ' ' || 9 <= c as int <= 13 }

  predicate EndsLiteral(c: char) { IsSpace(c) || c == ',' || c == '}' || c == ']' }

  predicate At(s: string, c: char) { s != "" && s[0] == c }

  function Trim(s: string): (r: string)
    ensures |r| <= |s| && (r != "" ==> !IsSpace(r[0]))
  {
    if s != "" && IsSpace(s[0]) then Trim(s[1..]) else s
  }

  function LiteralLength(s: string): (n: nat)
    ensures n <= |s|
  {
    if s == "" || EndsLiteral(s[0]) then 0 else 1 + LiteralLength(s[1..])
  }

  function Escaped(c: char): char {
    if c == 'b' then 8 as char
    else if c == 'f' then 12 as char
    else if c == 'n' then '\n'
    else if c == 'r' then '\r'
    else if c == 't' then '\t'
    else c
  }

  datatype Token = NoToken | Token(value: string, rest: string)

  /** The rest of a string after its opening quote. */
  function Body(s: string): (t: Token)
    ensures t.Token? ==> |t.rest| < |s|
  {
    if s == "" then NoToken
    else if s[0] == '"' then Token("", s[1..])
    else if s[0] == '\\' && |s| > 1 then Prepend(Escaped(s[1]), Body(s[2..]))
    else Prepend(s[0], Body(s[1..]))
  }

  function Prepend(c: char, t: Token): Token {
    if t.Token? then Token([c] + t.value, t.rest) else NoToken
  }

  function Quoted(s: string): (t: Token)
    ensures t.Token? ==> |t.rest| < |s|
  {
    if At(s, '"') then Body(s[1..]) else NoToken
  }

  /** Settings whose key is empty or lies in an array are dropped. */
  predicate Hidden(key: string) { key == "" || ARRAY_PATH <= key }

  function Stored(settings: Settings, key: string, value: string): Settings {
    if Hidden(key) then settings else settings[key := value]
  }

  function Join(path: string, key: string): string { if path == "" then key else path + "." + key }

  datatype Outcome = Failed | Parsed(rest: string, settings: Settings)

  function ValueOf(s: string, path: string, settings: Settings): (o: Outcome)
    ensures o.Parsed? ==> |o.rest| < |s|
    decreases |s|, 1
  {
    var v := Trim(s);
    if At(v, '{') then ObjectOf(v[1..], path, settings)
    else if At(v, '[') then ArrayOf(v[1..], settings)
    else if At(v, '"') then
      var t := Quoted(v);
      if t.Token? then Parsed(t.rest, Stored(settings, path, t.value)) else Failed
    else
      var n := LiteralLength(v);
      if n == 0 then Failed else Parsed(v[n..], Stored(settings, path, v[..n]))
  }

  function ObjectOf(s: string, path: string, settings: Settings): (o: Outcome)
    ensures o.Parsed? ==> |o.rest| < |s|
    decreases |s|, 1
  {
    var v := Trim(s);
    if At(v, '}') then Parsed(v[1..], settings) else MembersOf(v, path, settings)
  }

  function MembersOf(s: string, path: string, settings: Settings): (o: Outcome)
    ensures o.Parsed? ==> |o.rest| < |s|
    decreases |s|, 0
  {
    var key := Quoted(Trim(s));
    if key.NoToken? || !At(Trim(key.rest), ':') then Failed else
      var value := ValueOf(Trim(key.rest)[1..], Join(path, key.value), settings);
      if value.Failed? then Failed else
        var next := Trim(value.rest);
        if At(next, ',') then MembersOf(next[1..], path, value.settings)
        else if At(next, '}') then Parsed(next[1..], value.settings)
        else Failed
  }

  function ArrayOf(s: string, settings: Settings): (o: Outcome)
    ensures o.Parsed? ==> |o.rest| < |s|
    decreases |s|, 3
  {
    var v := Trim(s);
    if At(v, ']') then Parsed(v[1..], settings) else ElementsOf(v, 0, settings)
  }

  function ElementsOf(s: string, index: nat, settings: Settings): (o: Outcome)
    ensures o.Parsed? ==> |o.rest| < |s|
    decreases |s|, 2
  {
    var value := ValueOf(s, ARRAY_PATH + Decimal(index), settings);
    if value.Failed? then Failed else
      var next := Trim(value.rest);
      if At(next, ',') then ElementsOf(next[1..], index + 1, value.settings)
      else if At(next, ']') then Parsed(next[1..], value.settings)
      else Failed
  }

  function DocumentOf(s: string, settings: Settings): Outcome { ValueOf(Trim(s), "", settings) }

  // ----- Documents and their meaning -----

  /** One character of a string: as it stands, or after a backslash. */
  datatype Piece = Plain(c: char) | Escape(c: char)

  datatype Json = Text(pieces: seq<Piece>) | Literal(word: string) | Object(members: Members) | Array(elements:
      Elements)

  /** A member or element carries the white space around it. */
  datatype Member = Member(before: string, key: seq<Piece>, afterKey: string, beforeValue: string, value: Json,
      after: string)

  datatype Members = NoMembers(space: string) | LastMember(m: Member) | NextMember(m: Member, more: Members)

  datatype Elements =
    | NoElements(space: string)
    | LastElement(before: string, value: Json, after: string)
    | NextElement(before: string, value: Json, after: string, more: Elements)

  predicate Space(s: string) { forall i :: 0 <= i < |s| ==> IsSpace(s[i]) }

  predicate GoodPieces(p: seq<Piece>) { forall i :: 0 <= i < |p| ==> p[i].Plain? ==> p[i].c != '"' && p[i].c != '\\' }

  predicate GoodWord(w: string) {
    && w != "" && w[0] != '{' && w[0] != '[' && w[0] != '"'
    && forall i :: 0 <= i < |w| ==> !EndsLiteral(w[i])
  }

  predicate Good(j: Json) {
    match j
    case Text(p) => GoodPieces(p)
    case Literal(w) => GoodWord(w)
    case Object(ms) => GoodMembers(ms)
    case Array(es) => GoodElements(es)
  }

  predicate GoodMember(m: Member) {
    && Space(m.before) && GoodPieces(m.key) && Space(m.afterKey) && Space(m.beforeValue) && Good(m.value)
        && Space(m.after)
  }

  predicate GoodMembers(ms: Members) {
    match ms
    case NoMembers(space) => Space(space)
    case LastMember(m) => GoodMember(m)
    case NextMember(m, more) => GoodMember(m) && GoodMembers(more) && !more.NoMembers?
  }

  predicate GoodElements(es: Elements) {
    match es
    case NoElements(space) => Space(space)
    case LastElement(before, v, after) => Space(before) && Good(v) && Space(after)
    case NextElement(before, v, after, more) =>
      Space(before) && Good(v) && Space(after) && GoodElements(more) && !more.NoElements?
  }

  function PrintPieces(p: seq<Piece>): string {
    if p == [] then "" else (if p[0].Plain? then [p[0].c] else ['\\', p[0].c]) + PrintPieces(p[1..])
  }

  function Print(j: Json): string {
    match j
    case Text(p) => "\"" + (PrintPieces(p) + "\"")
    case Literal(w) => w
    case Object(ms) => "{" + PrintMembers(ms)
    case Array(es) => "[" + PrintElements(es)
  }

  function PrintMember(m: Member): string {
    m.before + ("\"" + (PrintPieces(m.key) + ("\"" + (m.afterKey
        + (":" + (m.beforeValue + (Print(m.value) + m.after)))))))
  }

  function PrintMembers(ms: Members): string {
    match ms
    case NoMembers(space) => space + "}"
    case LastMember(m) => PrintMember(m) + "}"
    case NextMember(m, more) => PrintMember(m) + ("," + PrintMembers(more))
  }

  function PrintElements(es: Elements): string {
    match es
    case NoElements(space) => space + "]"
    case LastElement(before, v, after) => before + (Print(v) + (after + "]"))
    case NextElement(before, v, after, more) => before + (Print(v) + (after + ("," + PrintElements(more))))
  }

  /** What a string stands for. */
  function Meaning(p: seq<Piece>): string {
    seq(|p|, i requires 0 <= i < |p| => if p[i].Plain? then p[i].c else Escaped(p[i].c))
  }

  datatype Setting = Setting(key: string, value: string)

  /** The dotted settings of a document in order; arrays contribute none. */
  function Flatten(j: Json, path: string): seq<Setting> {
    match j
    case Text(p) => [Setting(path, Meaning(p))]
    case Literal(w) => [Setting(path, w)]
    case Object(ms) => FlattenMembers(ms, path)
    case Array(_) => []
  }

  function FlattenMembers(ms: Members, path: string): seq<Setting> {
    match ms
    case NoMembers(_) => []
    case LastMember(m) => Flatten(m.value, Join(path, Meaning(m.key)))
    case NextMember(m, more) => Flatten(m.value, Join(path, Meaning(m.key))) + FlattenMembers(more, path)
  }

  function StoreAll(settings: Settings, list: seq<Setting>): Settings
    decreases |list|
  {
    if list == [] then settings
    else StoreAll(Stored(settings, list[0].key, list[0].value), list[1..])
  }

  // ----- Tokens -----

  lemma {:induction false} TrimSpace(space: string, s: string)
    requires Space(space)
    ensures Trim(space + s) == Trim(s)
  {
    if space == "" {
      assert space + s == s;
    } else {
      assert (space + s)[1..] == space[1..] + s;
      TrimSpace(space[1..], s);
    }
  }

  lemma {:induction false} TrimSplits(s: string) returns (space: string)
    ensures Space(space) && s == space + Trim(s)
  {
    if s != "" && IsSpace(s[0]) {
      var less := TrimSplits(s[1..]);
      space := [s[0]] + less;
    } else {
      space := "";
    }
  }

  lemma {:induction false} BodyOfPieces(p: seq<Piece>, rest: string)
    requires GoodPieces(p)
    ensures Body(PrintPieces(p) + ("\"" + rest)) == Token(Meaning(p), rest)
  {
    var s := PrintPieces(p) + ("\"" + rest);
    if p == [] {
      assert s == "\"" + rest;
    } else {
      BodyOfPieces(p[1..], rest);
      var less := PrintPieces(p[1..]) + ("\"" + rest);
      assert s == (if p[0].Plain? then [p[0].c] else ['\\', p[0].c]) + less;
      assert Meaning(p) == [if p[0].Plain? then p[0].c else Escaped(p[0].c)] + Meaning(p[1..]);
    }
  }

  lemma BodyStep(s: string)
    requires s != ""
    ensures Body(s) == if s[0] == '"' then Token("", s[1..])
                       else if s[0] == '\\' && |s| > 1 then Prepend(Escaped(s[1]), Body(s[2..]))
                       else Prepend(s[0], Body(s[1..]))
  {}

  lemma EmptyBody()
    ensures Body("") == NoToken
  {}

  lemma NoPieces()
    ensures PrintPieces([]) == "" && Meaning([]) == ""
  {}

  lemma PieceFirst(first: Piece, p: seq<Piece>)
    ensures PrintPieces([first] + p) == (if first.Plain? then [first.c] else ['\\', first.c]) + PrintPieces(p)
    ensures Meaning([first] + p) == [if first.Plain? then first.c else Escaped(first.c)] + Meaning(p)
  {
    hide Escaped;
    assert ([first] + p)[1..] == p;
    MeaningFirst(first, p);
  }

  lemma MeaningFirst(first: Piece, p: seq<Piece>)
    ensures Meaning([first] + p) == [if first.Plain? then first.c else Escaped(first.c)] + Meaning(p)
  {
    hide Escaped;
  }

  lemma {:induction false} PiecesOfBody(s: string) returns (p: seq<Piece>)
    requires Body(s).Token?
    ensures GoodPieces(p) && Meaning(p) == Body(s).value && s == PrintPieces(p) + ("\"" + Body(s).rest)
  {
    hide Escaped, PrintPieces, Meaning, Body;
    if s == "" {
      EmptyBody();
    }
    BodyStep(s);
    if s[0] == '"' {
      assert PrintPieces([]) == "" && Meaning([]) == "" by {
        NoPieces();
      }
      p := [];
    } else {
      var escape := s[0] == '\\' && |s| > 1;
      var first := if escape then Escape(s[1]) else Plain(s[0]);
      var width := if escape then 2 else 1;
      var less := PiecesOfBody(s[width..]);
      p := [first] + less;
      PieceFirst(first, less);
      assert s == s[..width] + s[width..];
    }
  }

  // ----- Strings against RFC 8259, section 7 -----

  /** How a writer puts a character into a string. */
  function EscapeOf(c: char): Piece {
    if c == '"' || c == '\\' then Escape(c)
    else if c == '\n' then Escape('n')
    else if c == '\r' then Escape('r')
    else if c == '\t' then Escape('t')
    else if c as int == 8 then Escape('b')
    else if c as int == 12 then Escape('f')
    else Plain(c)
  }

  function Escapes(s: string): (p: seq<Piece>)
    ensures |p| == |s|
  {
    seq(|s|, i requires 0 <= i < |s| => EscapeOf(s[i]))
  }

  /** Every string survives being written and read. */
  lemma EscapesRead(s: string, rest: string)
    ensures GoodPieces(Escapes(s)) && Meaning(Escapes(s)) == s
    ensures Body(PrintPieces(Escapes(s)) + ("\"" + rest)) == Token(s, rest)
  {
    hide Body;
    BodyOfPieces(Escapes(s), rest);
  }

  lemma WrittenStrings(text: string)
    ensures forall s, rest :: text == "\"" + (PrintPieces(Escapes(s)) + ("\"" + rest)) ==>
                                Quoted(text) == Token(s, rest)
  {
    hide Body, PrintPieces, Escapes;
    forall s, rest | text == "\"" + (PrintPieces(Escapes(s)) + ("\"" + rest))
      ensures Quoted(text) == Token(s, rest)
    {
      EscapesRead(s, rest);
      assert text[1..] == PrintPieces(Escapes(s)) + ("\"" + rest);
    }
  }

  /** A backslash before any other character only drops out; so four hexadecimal digits after a u are read as they
      stand. */
  lemma OtherEscapes(c: char, rest: string)
    requires c !in "bfnrt"
    ensures Body(['\\', c, '"'] + rest) == Token([c], rest)
  {
    var s := ['\\', c, '"'] + rest;
    assert s[2..] == ['"'] + rest && s[2..][1..] == rest;
    assert Body(s[2..]) == Token("", rest);
    assert [c] + "" == [c];
  }

  /** The texts of the escapes. */
  lemma EscapeTexts()
    ensures PrintPieces([EscapeOf('\n')]) == "\\n" && PrintPieces([EscapeOf('\r')]) == "\\r"
    ensures PrintPieces([EscapeOf('\t')]) == "\\t" && PrintPieces([EscapeOf('"')]) == "\\\""
    ensures PrintPieces([EscapeOf('\\')]) == "\\\\" && PrintPieces([EscapeOf('a')]) == "a"
  {
    hide PrintPieces;
    OnePiece(EscapeOf('\n'));
    OnePiece(EscapeOf('\r'));
    OnePiece(EscapeOf('\t'));
    OnePiece(EscapeOf('"'));
    OnePiece(EscapeOf('\\'));
    OnePiece(EscapeOf('a'));
  }

  lemma OnePiece(p: Piece)
    ensures PrintPieces([p]) == if p.Plain? then [p.c] else ['\\', p.c]
  {
    assert [p][1..] == [];
  }

  /** What may follow a document: anything, but a literal has to be closed off. */
  predicate Follows(j: Json, rest: string) { j.Literal? && rest != "" ==> EndsLiteral(rest[0]) }

  lemma {:induction false} WordLength(w: string, rest: string)
    requires forall i :: 0 <= i < |w| ==> !EndsLiteral(w[i])
    requires rest != "" ==> EndsLiteral(rest[0])
    ensures LiteralLength(w + rest) == |w|
  {
    if w == "" {
      assert w + rest == rest;
    } else {
      assert (w + rest)[1..] == w[1..] + rest;
      WordLength(w[1..], rest);
    }
  }

  lemma {:induction false} LiteralIsWord(s: string)
    ensures var n := LiteralLength(s);
            (forall i :: 0 <= i < n ==> !EndsLiteral(s[i])) && (n < |s| ==> EndsLiteral(s[n]))
  {
    if s != "" && !EndsLiteral(s[0]) {
      LiteralIsWord(s[1..]);
      var n := LiteralLength(s);
      forall i | 0 <= i < n
        ensures !EndsLiteral(s[i])
      {
        if i > 0 {
          assert s[1..][i - 1] == s[i];
        }
      }
    }
  }

  /** White space is the six characters of the C locale; a literal also ends at a comma or a closing bracket. */
  lemma LiteralEnds(s: string)
    ensures var n := LiteralLength(s);
            && (forall i :: 0 <= i < n ==> s[i] !in " \t\n\r,}]" && s[i] as int != 11 && s[i] as int != 12)
            && (n < |s| ==> s[n] in " \t\n\r,}]" || s[n] as int == 11 || s[n] as int == 12)
  {
    hide EndsLiteral, LiteralLength;
    LiteralIsWord(s);
    var n := LiteralLength(s);
    forall i | 0 <= i < |s| && i <= n
      ensures EndsLiteral(s[i]) <==> s[i] in " \t\n\r,}]" || s[i] as int == 11 || s[i] as int == 12
    {
      EndsIs(s[i]);
    }
  }

  lemma EndsIs(c: char)
    ensures EndsLiteral(c) <==> c in " \t\n\r,}]" || c as int == 11 || c as int == 12
  {}

  // ----- Storing -----

  lemma {:induction false} StoreInTurn(settings: Settings, a: seq<Setting>, b: seq<Setting>)
    ensures StoreAll(settings, a + b) == StoreAll(StoreAll(settings, a), b)
    decreases |a|
  {
    if a == [] {
      assert a + b == b;
    } else {
      assert (a + b)[1..] == a[1..] + b;
      StoreInTurn(Stored(settings, a[0].key, a[0].value), a[1..], b);
    }
  }

  /** Nothing inside an array is recorded, however deep. */
  lemma {:induction false} ArraysAreIgnored(j: Json, path: string, settings: Settings)
    requires ARRAY_PATH <= path
    ensures StoreAll(settings, Flatten(j, path)) == settings
    decreases j
  {
    if j.Object? {
      MembersIgnored(j.members, path, settings);
    }
  }

  lemma {:induction false} MembersIgnored(ms: Members, path: string, settings: Settings)
    requires ARRAY_PATH <= path
    ensures StoreAll(settings, FlattenMembers(ms, path)) == settings
    decreases ms
  {
    match ms
    case NoMembers(_) =>
    case LastMember(m) =>
      ArraysAreIgnored(m.value, Join(path, Meaning(m.key)), settings);
    case NextMember(m, more) =>
      var p := Join(path, Meaning(m.key));
      ArraysAreIgnored(m.value, p, settings);
      MembersIgnored(more, path, settings);
      StoreInTurn(settings, Flatten(m.value, p), FlattenMembers(more, path));
  }

  /** The last setting of a key wins; settings never mentioned keep their value. */
  lemma {:induction false} LastWins(settings: Settings, list: seq<Setting>, key: string)
    ensures var after := StoreAll(settings, list);
            if Hidden(key) || forall i :: 0 <= i < |list| ==> list[i].key != key
            then (key in after <==> key in settings) && (key in settings ==> after[key] == settings[key])
            else exists i :: 0 <= i < |list| && list[i].key == key && key in after && after[key] == list[i].value
                             && forall k :: i < k < |list| ==> list[k].key != key
    decreases |list|
  {
    if list != [] {
      var first := Stored(settings, list[0].key, list[0].value);
      LastWins(first, list[1..], key);
      assert forall i :: 0 <= i < |list| - 1 ==> list[1..][i] == list[i + 1];
      if !Hidden(key) && exists i :: 1 <= i < |list| && list[i].key == key {
        var i :| 1 <= i < |list| && list[i].key == key;
        assert list[1..][i - 1].key == key;
        var w :| 0 <= w < |list| - 1 && list[1..][w].key == key && key in StoreAll(first, list[1..])
                 && StoreAll(first, list[1..])[key] == list[1..][w].value
                 && forall k :: w < k < |list| - 1 ==> list[1..][k].key != key;
        assert list[w + 1].key == key;
        forall k | w + 1 < k < |list|
          ensures list[k].key != key
        {
          assert list[1..][k - 1] == list[k];
        }
      } else if !Hidden(key) && list[0].key == key {
        assert list[0].key == key;
      }
    }
  }

  // ----- Dotted keys -----

  /** Keys with a point before each. */
  function Pointed(keys: seq<string>): string {
    if keys == [] then "" else "." + keys[0] + Pointed(keys[1..])
  }

  /** The keys on the way to a setting, with points between them; empty keys at the outside leave no trace. */
  function Dotted(keys: seq<string>): string {
    if keys == [] then "" else if keys[0] == "" then Dotted(keys[1..]) else keys[0] + Pointed(keys[1..])
  }

  lemma {:induction false} PointedMore(keys: seq<string>, key: string)
    ensures Pointed(keys + [key]) == Pointed(keys) + "." + key
  {
    if keys == [] {
      assert Pointed([key]) == "." + key + Pointed([]);
    } else {
      assert (keys + [key])[1..] == keys[1..] + [key];
      PointedMore(keys[1..], key);
    }
  }

  /** Going one object deeper adds the key at the end. */
  lemma {:induction false} JoinDotted(keys: seq<string>, key: string)
    ensures Join(Dotted(keys), key) == Dotted(keys + [key])
  {
    hide Pointed;
    var more := keys + [key];
    if keys == [] {
      assert more == [key] && more[1..] == [];
      DottedOne(key);
    } else {
      assert more[1..] == keys[1..] + [key] && more[0] == keys[0];
      if keys[0] == "" {
        JoinDotted(keys[1..], key);
      } else {
        PointedMore(keys[1..], key);
        assert keys[0] + (Pointed(keys[1..]) + "." + key) == keys[0] + Pointed(keys[1..]) + "." + key;
      }
    }
  }

  lemma DottedOne(key: string)
    ensures Dotted([key]) == key
  {
    assert [key][1..] == [] && key + "" == key;
  }

  /** A text or literal of a document with the keys on the way to it. */
  datatype Leaf = Leaf(keys: seq<string>, value: string)

  /** All of them in order, except those inside arrays. */
  function Leaves(j: Json, keys: seq<string>): seq<Leaf> {
    match j
    case Text(p) => [Leaf(keys, Meaning(p))]
    case Literal(w) => [Leaf(keys, w)]
    case Object(ms) => MemberLeaves(ms, keys)
    case Array(_) => []
  }

  function MemberLeaves(ms: Members, keys: seq<string>): seq<Leaf> {
    match ms
    case NoMembers(_) => []
    case LastMember(m) => Leaves(m.value, keys + [Meaning(m.key)])
    case NextMember(m, more) => Leaves(m.value, keys + [Meaning(m.key)]) + MemberLeaves(more, keys)
  }

  function Settle(leaves: seq<Leaf>): (list: seq<Setting>)
    ensures |list| == |leaves|
  {
    seq(|leaves|, i requires 0 <= i < |leaves| => Setting(Dotted(leaves[i].keys), leaves[i].value))
  }

  /** The settings of a document are its leaves under their dotted keys. */
  lemma {:induction false} FlattenIsDotted(j: Json, keys: seq<string>)
    ensures Flatten(j, Dotted(keys)) == Settle(Leaves(j, keys))
    decreases j
  {
    hide Dotted, Join, Meaning;
    if j.Object? {
      MembersAreDotted(j.members, keys);
    }
  }

  lemma {:induction false} MembersAreDotted(ms: Members, keys: seq<string>)
    ensures FlattenMembers(ms, Dotted(keys)) == Settle(MemberLeaves(ms, keys))
    decreases ms
  {
    hide Dotted, Join, Meaning;
    if !ms.NoMembers? {
      JoinDotted(keys, Meaning(ms.m.key));
      FlattenIsDotted(ms.m.value, keys + [Meaning(ms.m.key)]);
      if ms.NextMember? {
        MembersAreDotted(ms.more, keys);
      }
    }
  }

  // ----- The reader accepts exactly the printed documents -----

  lemma MemberKey(m: Member, tail: string)
    requires GoodMember(m)
    ensures var key := Quoted(Trim(PrintMember(m) + tail));
            && key.Token? && key.value == Meaning(m.key) && At(Trim(key.rest), ':')
            && Trim(key.rest)[1..] == m.beforeValue + (Print(m.value) + (m.after + tail))
  {
    hide Print, Body, PrintPieces, Meaning, GoodPieces, Space, Good, PrintMember;
    var value := m.beforeValue + (Print(m.value) + (m.after + tail));
    var rest := m.afterKey + (":" + value);
    var key := PrintPieces(m.key) + ("\"" + rest);
    MemberText(m, tail);
    TrimSpace(m.before, "\"" + key);
    BodyOfPieces(m.key, rest);
    TrimSpace(m.afterKey, ":" + value);
    assert ("\"" + key)[1..] == key && (":" + value)[1..] == value;
  }

  lemma MemberText(m: Member, tail: string)
    ensures var value := m.beforeValue + (Print(m.value) + (m.after + tail));
            PrintMember(m) + tail == m.before + ("\"" + (PrintPieces(m.key) + ("\"" + (m.afterKey + (":" + value)))))
  {
    hide Print, PrintPieces;
  }

  /** Printing a document, with any white space, and reading it gives its flattening and leaves the text after it. */
  lemma {:induction false} ReadsPrinted(j: Json, before: string, rest: string, path: string, settings: Settings)
    requires Good(j) && Space(before) && Follows(j, rest)
    ensures ValueOf(before + (Print(j) + rest), path, settings) == Parsed(rest, StoreAll(settings, Flatten(j, path)))
    decreases j, 1
  {
    hide ObjectOf, ArrayOf, Quoted, LiteralLength, Trim, Stored, StoreAll, GoodPieces, GoodWord;
    var s := Print(j) + rest;
    TrimSpace(before, s);
    match j
    case Text(p) =>
      ReadsText(p, rest, s, path, settings);
    case Literal(w) =>
      ReadsWord(w, rest, s);
      StoreOne(settings, Setting(path, w));
    case Object(ms) =>
      assert s[1..] == PrintMembers(ms) + rest;
      TrimStops(s);
      ReadsObject(ms, rest, path, settings);
    case Array(es) =>
      assert s[1..] == PrintElements(es) + rest;
      TrimStops(s);
      ReadsArray(es, rest, settings);
      assert StoreAll(settings, []) == settings by {
        StoreInTurn(settings, [], []);
        StoreNone(settings);
      }
  }

  lemma StoreNone(settings: Settings)
    ensures StoreAll(settings, []) == settings
  {}

  lemma TrimStops(s: string)
    requires s != "" && !IsSpace(s[0])
    ensures Trim(s) == s
  {}

  lemma ReadsText(p: seq<Piece>, rest: string, s: string, path: string, settings: Settings)
    requires GoodPieces(p) && s == "\"" + (PrintPieces(p) + "\"") + rest
    ensures Trim(s) == s && At(s, '"') && Quoted(s) == Token(Meaning(p), rest)
    ensures StoreAll(settings, [Setting(path, Meaning(p))]) == Stored(settings, path, Meaning(p))
  {
    hide Body, PrintPieces, Meaning, GoodPieces, Stored;
    assert s[1..] == PrintPieces(p) + ("\"" + rest);
    BodyOfPieces(p, rest);
    StoreOne(settings, Setting(path, Meaning(p)));
  }

  lemma ReadsWord(w: string, rest: string, s: string)
    requires GoodWord(w) && (rest != "" ==> EndsLiteral(rest[0])) && s == w + rest
    ensures Trim(s) == s && !At(s, '{') && !At(s, '[') && !At(s, '"')
    ensures LiteralLength(s) == |w| > 0 && s[..|w|] == w && s[|w|..] == rest
  {
    assert s[0] == w[0] && !EndsLiteral(w[0]);
    WordLength(w, rest);
  }

  lemma StoreOne(settings: Settings, e: Setting)
    ensures StoreAll(settings, [e]) == Stored(settings, e.key, e.value)
  {}

  lemma {:induction false} ReadsObject(ms: Members, rest: string, path: string, settings: Settings)
    requires GoodMembers(ms)
    ensures ObjectOf(PrintMembers(ms) + rest, path, settings)
            == Parsed(rest, StoreAll(settings, FlattenMembers(ms, path)))
    decreases ms, 1
  {
    hide MembersOf;
    var s := PrintMembers(ms) + rest;
    if ms.NoMembers? {
      assert s == ms.space + ("}" + rest);
      TrimSpace(ms.space, "}" + rest);
      assert ("}" + rest)[1..] == rest;
    } else {
      ReadsMembers(ms, rest, path, settings);
      MembersAfterTrim(s, path, settings);
    }
  }

  lemma MembersAfterTrim(s: string, path: string, settings: Settings)
    requires MembersOf(s, path, settings).Parsed?
    ensures MembersOf(Trim(s), path, settings) == MembersOf(s, path, settings) && !At(Trim(s), '}')
  {
    hide ValueOf;
    TrimAgain(s);
  }

  lemma TrimAgain(s: string)
    ensures Trim(Trim(s)) == Trim(s)
  {}

  lemma FollowsSpace(j: Json, after: string, tail: string)
    requires Space(after) && tail != "" && EndsLiteral(tail[0])
    ensures Follows(j, after + tail)
  {}

  lemma {:induction false} ReadsMembers(ms: Members, rest: string, path: string, settings: Settings)
    requires GoodMembers(ms) && !ms.NoMembers?
    ensures MembersOf(PrintMembers(ms) + rest, path, settings)
            == Parsed(rest, StoreAll(settings, FlattenMembers(ms, path)))
    decreases ms, 0
  {
    hide ValueOf, Print, PrintMember, Quoted, GoodPieces, PrintPieces, Trim, Meaning, Flatten, StoreAll, Space;
    var m := ms.m;
    var p := Join(path, Meaning(m.key));
    var tail := if ms.LastMember? then "}" + rest else "," + (PrintMembers(ms.more) + rest);
    assert PrintMembers(ms) + rest == PrintMember(m) + tail;
    MemberKey(m, tail);
    FollowsSpace(m.value, m.after, tail);
    ReadsPrinted(m.value, m.beforeValue, m.after + tail, p, settings);
    TrimSpace(m.after, tail);
    TrimStops(tail);
    if ms.NextMember? {
      var stored := StoreAll(settings, Flatten(m.value, p));
      assert tail[1..] == PrintMembers(ms.more) + rest;
      ReadsMembers(ms.more, rest, path, stored);
      StoreInTurn(settings, Flatten(m.value, p), FlattenMembers(ms.more, path));
    } else {
      assert tail[1..] == rest;
    }
  }

  lemma {:induction false} ReadsArray(es: Elements, rest: string, settings: Settings)
    requires GoodElements(es)
    ensures ArrayOf(PrintElements(es) + rest, settings) == Parsed(rest, settings)
    decreases es, 1
  {
    hide ElementsOf;
    var s := PrintElements(es) + rest;
    if es.NoElements? {
      assert s == es.space + ("]" + rest);
      TrimSpace(es.space, "]" + rest);
      assert ("]" + rest)[1..] == rest;
    } else {
      ReadsElements(es, 0, rest, settings);
      ElementsAfterTrim(s, 0, settings);
    }
  }

  lemma ElementsAfterTrim(s: string, index: nat, settings: Settings)
    requires ElementsOf(s, index, settings).Parsed?
    ensures ElementsOf(Trim(s), index, settings) == ElementsOf(s, index, settings) && !At(Trim(s), ']')
  {
    hide Decimal, ObjectOf, ArrayOf, Quoted;
    TrimAgain(s);
    assert ValueOf(Trim(s), ARRAY_PATH + Decimal(index), settings) == ValueOf(s, ARRAY_PATH + Decimal(index), settings);
  }

  lemma {:induction false} ReadsElements(es: Elements, index: nat, rest: string, settings: Settings)
    requires GoodElements(es) && !es.NoElements?
    ensures ElementsOf(PrintElements(es) + rest, index, settings) == Parsed(rest, settings)
    decreases es, 0
  {
    hide ValueOf, Print, Decimal, Trim, Space, StoreAll;
    var path := ARRAY_PATH + Decimal(index);
    var tail := if es.LastElement? then "]" + rest else "," + (PrintElements(es.more) + rest);
    assert PrintElements(es) + rest == es.before + (Print(es.value) + (es.after + tail));
    FollowsSpace(es.value, es.after, tail);
    ReadsPrinted(es.value, es.before, es.after + tail, path, settings);
    ArraysAreIgnored(es.value, path, settings);
    TrimSpace(es.after, tail);
    TrimStops(tail);
    if es.NextElement? {
      assert tail[1..] == PrintElements(es.more) + rest;
      ReadsElements(es.more, index + 1, rest, settings);
    } else {
      assert tail[1..] == rest;
    }
  }

  lemma {:induction false} ReadIsPrinted(s: string, path: string, settings: Settings) returns (j: Json, before: string)
    requires ValueOf(s, path, settings).Parsed?
    ensures var rest := ValueOf(s, path, settings).rest;
            Good(j) && Space(before) && Follows(j, rest) && s == before + (Print(j) + rest)
    decreases |s|, 1
  {
    hide ObjectOf, ArrayOf, Quoted, LiteralLength, Trim, Print, Good, Follows, Space;
    before := TrimSplits(s);
    var v := Trim(s);
    var rest := ValueOf(s, path, settings).rest;
    if At(v, '{') {
      var ms := ObjectIsPrinted(v[1..], path, settings);
      j := Object(ms);
      BracketIsPrinted(v, j, PrintMembers(ms), rest);
    } else if At(v, '[') {
      var es := ArrayIsPrinted(v[1..], settings);
      j := Array(es);
      BracketIsPrinted(v, j, PrintElements(es), rest);
    } else {
      j := LeafIsPrinted(s, path, settings);
    }
  }

  lemma BracketIsPrinted(v: string, j: Json, inner: string, rest: string)
    requires v != "" && v[1..] == inner + rest
    requires (j.Object? && v[0] == '{' && GoodMembers(j.members) && inner == PrintMembers(j.members))
             || (j.Array? && v[0] == '[' && GoodElements(j.elements) && inner == PrintElements(j.elements))
    ensures Good(j) && Follows(j, rest) && v == Print(j) + rest
  {
    hide PrintMembers, PrintElements, GoodMembers, GoodElements;
    assert v == [v[0]] + v[1..];
  }

  lemma LeafIsPrinted(s: string, path: string, settings: Settings) returns (j: Json)
    requires ValueOf(s, path, settings).Parsed? && !At(Trim(s), '{') && !At(Trim(s), '[')
    ensures var rest := ValueOf(s, path, settings).rest;
            Good(j) && Follows(j, rest) && Trim(s) == Print(j) + rest
  {
    hide Body, Trim;
    var v := Trim(s);
    var rest := ValueOf(s, path, settings).rest;
    if At(v, '"') {
      var p := PiecesOfBody(v[1..]);
      j := Text(p);
      assert v == "\"" + (PrintPieces(p) + ("\"" + rest));
    } else {
      LiteralIsWord(v);
      j := Literal(v[..LiteralLength(v)]);
      assert v == v[..LiteralLength(v)] + rest;
    }
  }

  lemma {:induction false} ObjectIsPrinted(s: string, path: string, settings: Settings) returns (ms: Members)
    requires ObjectOf(s, path, settings).Parsed?
    ensures GoodMembers(ms) && s == PrintMembers(ms) + ObjectOf(s, path, settings).rest
    decreases |s|, 1
  {
    hide MembersOf, Trim, Space, PrintMember, GoodMember;
    var v := Trim(s);
    if At(v, '}') {
      var space := TrimSplits(s);
      ms := NoMembers(space);
      assert v == "}" + v[1..];
    } else {
      assert MembersOf(s, path, settings) == MembersOf(v, path, settings) by {
        MembersTrim(s, path, settings);
      }
      ms := MembersArePrinted(s, path, settings);
    }
  }

  lemma MembersTrim(s: string, path: string, settings: Settings)
    ensures MembersOf(Trim(s), path, settings) == MembersOf(s, path, settings)
  {
    hide ValueOf;
    TrimAgain(s);
  }

  lemma {:induction false} MembersArePrinted(s: string, path: string, settings: Settings) returns (ms: Members)
    requires MembersOf(s, path, settings).Parsed?
    ensures GoodMembers(ms) && !ms.NoMembers? && s == PrintMembers(ms) + MembersOf(s, path, settings).rest
    decreases |s|, 0
  {
    hide ValueOf, Print, GoodPieces, PrintPieces, Good, Body, PrintMember, Trim, Space, Meaning, Follows, IsSpace;
    hide MembersOf, Join;
    MembersParts(s, path, settings);
    var before := TrimSplits(s);
    var token := Quoted(Trim(s));
    var key := PiecesOfBody(Trim(s)[1..]);
    var afterKey := TrimSplits(token.rest);
    var v := Trim(token.rest)[1..];
    var o := ValueOf(v, Join(path, token.value), settings);
    var value, beforeValue := ReadIsPrinted(v, Join(path, token.value), settings);
    var after := TrimSplits(o.rest);
    var next := Trim(o.rest);
    var m := Member(before, key, afterKey, beforeValue, value, after);
    MemberSplits(s, m, token.rest, v, o.rest, next);
    if At(next, ',') {
      var more := MembersArePrinted(next[1..], path, o.settings);
      ms := NextMember(m, more);
      assert next == "," + (PrintMembers(more) + MembersOf(s, path, settings).rest);
    } else {
      ms := LastMember(m);
      assert next == "}" + MembersOf(s, path, settings).rest;
    }
  }

  lemma MembersParts(s: string, path: string, settings: Settings)
    requires MembersOf(s, path, settings).Parsed?
    ensures var token := Quoted(Trim(s));
            && token.Token? && At(Trim(token.rest), ':')
            && var o := ValueOf(Trim(token.rest)[1..], Join(path, token.value), settings);
               && o.Parsed?
               && var next, all := Trim(o.rest), MembersOf(s, path, settings);
                  if At(next, ',') then |next| <= |s| && all == MembersOf(next[1..], path, o.settings)
                  else At(next, '}') && all == Parsed(next[1..], o.settings)
  {
    hide ValueOf, Body, Trim, Join;
  }

  lemma MemberSplits(s: string, m: Member, afterKey: string, v: string, afterValue: string, next: string)
    requires s == m.before + Trim(s) && At(Trim(s), '"') && Trim(s)[1..] == PrintPieces(m.key) + ("\"" + afterKey)
    requires afterKey == m.afterKey + Trim(afterKey) && At(Trim(afterKey), ':') && v == Trim(afterKey)[1..]
    requires v == m.beforeValue + (Print(m.value) + afterValue) && afterValue == m.after + next
    ensures s == PrintMember(m) + next
  {
    hide Print, PrintPieces, Trim;
    assert Trim(afterKey) == ":" + v;
    assert Trim(s) == "\"" + Trim(s)[1..];
    var inner := m.beforeValue + (Print(m.value) + m.after);
    assert v == inner + next;
  }

  lemma {:induction false} ArrayIsPrinted(s: string, settings: Settings) returns (es: Elements)
    requires ArrayOf(s, settings).Parsed?
    ensures GoodElements(es) && s == PrintElements(es) + ArrayOf(s, settings).rest
    decreases |s|, 3
  {
    hide ElementsOf, Trim, Space;
    var v := Trim(s);
    var space := TrimSplits(s);
    if At(v, ']') {
      es := NoElements(space);
      assert v == "]" + v[1..];
    } else {
      es := ElementsArePrinted(v, 0, settings);
      es := Widened(es, space);
    }
  }

  /** Elements with more white space in front. */
  lemma Widened(es: Elements, space: string) returns (wide: Elements)
    requires GoodElements(es) && !es.NoElements? && Space(space)
    ensures GoodElements(wide) && PrintElements(wide) == space + PrintElements(es)
  {
    hide Print, Good;
    wide := es.(before := space + es.before);
  }

  lemma {:induction false} ElementsArePrinted(s: string, index: nat, settings: Settings) returns (es: Elements)
    requires ElementsOf(s, index, settings).Parsed?
    ensures GoodElements(es) && !es.NoElements? && s == PrintElements(es) + ElementsOf(s, index, settings).rest
    decreases |s|, 2
  {
    hide ValueOf, Print, Good, Decimal, Trim, Space;
    var path := ARRAY_PATH + Decimal(index);
    var o := ValueOf(s, path, settings);
    var value, before := ReadIsPrinted(s, path, settings);
    var after := TrimSplits(o.rest);
    var next := Trim(o.rest);
    if At(next, ',') {
      var more := ElementsArePrinted(next[1..], index + 1, o.settings);
      es := NextElement(before, value, after, more);
      assert next == "," + (PrintElements(more) + ElementsOf(s, index, settings).rest);
    } else {
      es := LastElement(before, value, after);
      assert next == "]" + ElementsOf(s, index, settings).rest;
    }
  }

  /** s is a document with white space in front, followed by rest. */
  ghost predicate Splits(s: string, before: string, j: Json, rest: string) {
    Good(j) && Space(before) && Follows(j, rest) && s == before + (Print(j) + rest)
  }

  /** A text is read exactly when it begins with a document, and then the settings are those of that document. */
  lemma ReadsExactlyDocuments(s: string)
    ensures DocumentOf(s, map[]).Parsed? <==> exists before, j, rest :: Splits(s, before, j, rest)
    ensures forall before, j, rest :: Splits(s, before, j, rest) ==>
              DocumentOf(s, map[]) == Parsed(rest, StoreAll(map[], Flatten(j, "")))
  {
    hide ValueOf, Print, Good, Flatten, StoreAll;
    TrimFirst(s);
    if DocumentOf(s, map[]).Parsed? {
      var j, before := ReadIsPrinted(s, "", map[]);
      assert Splits(s, before, j, ValueOf(s, "", map[]).rest);
    }
    forall before, j, rest | Splits(s, before, j, rest)
      ensures DocumentOf(s, map[]) == Parsed(rest, StoreAll(map[], Flatten(j, "")))
    {
      ReadsPrinted(j, before, rest, "", map[]);
    }
  }

  lemma TrimFirst(s: string)
    ensures DocumentOf(s, map[]) == ValueOf(s, "", map[])
  {
    hide ObjectOf, ArrayOf, Quoted;
    TrimAgain(s);
  }

  // ----- One text, letter by letter -----

  function OneMember(key: char, value: Json): Member { Member("", [Plain(key)], "", " ", value, "") }

  lemma OneMemberIs(key: char, value: Json)
    requires key != '"' && key != '\\' && Good(value)
    ensures GoodMember(OneMember(key, value))
    ensures PrintMember(OneMember(key, value)) == "\"" + [key] + "\": " + Print(value)
    ensures Meaning(OneMember(key, value).key) == [key] && OneMember(key, value).value == value
  {
    hide Print, Good;
    PieceFirst(Plain(key), []);
    NoPieces();
    assert [Plain(key)] + [] == [Plain(key)];
  }

  function BrokenText(): Json { Text([Plain('x'), Escape('n')]) }

  lemma BrokenTextIs(path: string)
    ensures Good(BrokenText()) && Print(BrokenText()) == "\"x\\n\""
    ensures Flatten(BrokenText(), path) == [Setting(path, "x\n")]
  {
    PieceFirst(Plain('x'), [Escape('n')]);
    PieceFirst(Escape('n'), []);
    NoPieces();
    assert [Plain('x')] + [Escape('n')] == [Plain('x'), Escape('n')] && [Escape('n')] + [] == [Escape('n')];
    assert Meaning([Plain('x'), Escape('n')]) == "x\n";
  }

  function Inner(): Json { Object(LastMember(OneMember('b', BrokenText()))) }

  lemma InnerIs()
    ensures Good(Inner()) && Print(Inner()) == "{\"b\": \"x\\n\"}"
    ensures Flatten(Inner(), "a") == [Setting("a.b", "x\n")]
  {
    hide BrokenText, OneMember, GoodMember, PrintMember, Meaning;
    BrokenTextIs("a.b");
    OneMemberIs('b', BrokenText());
    assert Join("a", "b") == "a.b";
  }

  function List(): Json { Array(LastElement("", Literal("7"), "")) }

  lemma ListIs()
    ensures Good(List()) && Print(List()) == "[7]" && Flatten(List(), "c") == []
  {
    assert Print(Literal("7")) == "7";
  }

  lemma NumberIs()
    ensures Good(Literal("42")) && Print(Literal("42")) == "42" && Flatten(Literal("42"), "d") == [Setting("d", "42")]
  {}

  function Last(): Members { LastMember(OneMember('d', Literal("42"))) }

  function Tail(): Members { NextMember(OneMember('c', List()), Last()) }

  function Whole(): Json { Object(NextMember(OneMember('a', Inner()), Tail())) }

  lemma LastIs()
    ensures GoodMembers(Last()) && !Last().NoMembers? && PrintMembers(Last()) == "\"d\": 42}"
    ensures FlattenMembers(Last(), "") == [Setting("d", "42")]
  {
    hide OneMember, GoodMember, PrintMember, Meaning;
    NumberIs();
    OneMemberIs('d', Literal("42"));
  }

  lemma TailIs()
    ensures GoodMembers(Tail()) && !Tail().NoMembers? && PrintMembers(Tail()) == "\"c\": [7],\"d\": 42}"
    ensures FlattenMembers(Tail(), "") == [Setting("d", "42")]
  {
    hide OneMember, GoodMember, PrintMember, Meaning, List, Last;
    ListIs();
    LastIs();
    OneMemberIs('c', List());
  }

  lemma WholeText()
    ensures Whole().Object? && Good(Whole())
    ensures Print(Whole()) == "{\"a\": {\"b\": \"x\\n\"},\"c\": [7],\"d\": 42}"
  {
    hide OneMember, GoodMember, PrintMember, Inner, Tail, Flatten;
    InnerIs();
    TailIs();
    OneMemberIs('a', Inner());
    WholeParts(PrintMember(OneMember('a', Inner())), PrintMembers(Tail()));
  }

  lemma WholeParts(first: string, tail: string)
    requires first == "\"" + ['a'] + "\": " + "{\"b\": \"x\\n\"}" && tail == "\"c\": [7],\"d\": 42}"
    ensures "{" + (first + ("," + tail)) == "{\"a\": {\"b\": \"x\\n\"},\"c\": [7],\"d\": 42}"
  {
    hide *;
  }

  lemma WholeSettings()
    ensures Flatten(Whole(), "") == [Setting("a.b", "x\n"), Setting("d", "42")]
  {
    hide OneMember, Inner, Tail, Good, Print, Meaning;
    InnerIs();
    TailIs();
    OneMemberIs('a', Inner());
    assert Join("", "a") == "a";
  }

  /** Nested objects, an escape, an array and a number: what is read, and that nothing behind it matters. */
  lemma Example(rest: string)
    ensures DocumentOf("{\"a\": {\"b\": \"x\\n\"},\"c\": [7],\"d\": 42}" + rest, map[])
         == Parsed(rest, map["a.b" := "x\n", "d" := "42"])
  {
    hide ValueOf, Print, Good, Flatten, StoreAll, Whole;
    WholeText();
    WholeSettings();
    var text := "{\"a\": {\"b\": \"x\\n\"},\"c\": [7],\"d\": 42}" + rest;
    TrimFirst(text);
    assert "" + (Print(Whole()) + rest) == text;
    ReadsPrinted(Whole(), "", rest, "", map[]);
    StoreTwo(Setting("a.b", "x\n"), Setting("d", "42"));
  }

  lemma StoreTwo(a: Setting, b: Setting)
    requires !Hidden(a.key) && !Hidden(b.key)
    ensures StoreAll(map[], [a, b]) == map[a.key := a.value, b.key := b.value]
  {
    hide Hidden;
    assert [a, b] == [a] + [b];
    StoreInTurn(map[], [a], [b]);
    StoreOne(map[], a);
    StoreOne(map[a.key := a.value], b);
  }

  // ----- The classes -----

  class CServerConfig {
    var settings: Settings
    var loaded: bool

    constructor ()
      ensures settings == map[] && !loaded
    {
      settings, loaded := map[], false;
    }

    method SetSetting(key: string, value: string)
      modifies this`settings
      ensures settings == Stored(old(settings), key, value)
      ensures settings == if key == "" || "__array." <= key then old(settings) else old(settings)[key := value]
    {
      if key != "" && !(ARRAY_PATH <= key) {
        settings := settings[key := value];
      }
    }

    method GetSettingOr(key: string, fallback: string) returns (value: string)
      ensures value == if key in settings then settings[key] else fallback
    {
      if key in settings {
        value := settings[key];
      } else {
        value := fallback;
      }
    }

    /** All or nothing: a text that cannot be read leaves no settings, not even those stored before the error. */
    method ParseJsonConfig(strConfig: string)
      modifies this
      ensures var o := DocumentOf(strConfig, old(settings));
              if o.Parsed? then settings == o.settings && loaded == old(loaded) else settings == map[] && !loaded
    {
      hide DocumentOf;
      var reader := new JsonReader(this, strConfig);
      var ok := reader.Parse();
      if !ok {
        settings, loaded := map[], false;
      }
    }
  }

  /** The recursive-descent reader; a method that throws in the source returns false here. */
  class JsonReader {
    const config: CServerConfig
    const source: string
    var pos: nat

    constructor (config: CServerConfig, source: string)
      ensures this.config == config && this.source == source && pos == 0
    {
      this.config, this.source, pos := config, source, 0;
    }

    ghost function Left(): string
      requires pos <= |source|
      reads this`pos
    {
      source[pos..]
    }

    /** The reader did what o says. */
    ghost predicate Did(ok: bool, o: Outcome)
      reads this`pos, config`settings
    {
      && pos <= |source|
      && if ok then o == Parsed(Left(), config.settings) else o == Failed
    }

    method Parse() returns (ok: bool)
      requires pos == 0
      modifies this`pos, config`settings
      ensures Did(ok, DocumentOf(source, old(config.settings)))
    {
      hide ValueOf;
      assert Left() == source;
      SkipWhitespace();
      ok := ParseValue("");
    }

    method ParseValue(path: string) returns (ok: bool)
      requires pos <= |source|
      modifies this`pos, config`settings
      ensures Did(ok, ValueOf(old(Left()), path, old(config.settings))) && (ok ==> pos > old(pos))
      decreases |source| - pos, 1
    {
      hide Trim, Quoted, ObjectOf, ArrayOf, LiteralLength, Stored;
      SkipWhitespace();
      ghost var v := Left();
      var matched := Match('{');
      if matched {
        ok := ParseObject(path);
        return;
      }
      matched := Match('[');
      if matched {
        ok := ParseArray();
        return;
      }
      var value;
      if Peek() == '"' {
        ok, value := ParseString();
      } else {
        ok, value := ParseLiteral();
      }
      if ok {
        config.SetSetting(path, value);
      }
    }

    method ParseObject(path: string) returns (ok: bool)
      requires pos <= |source|
      modifies this`pos, config`settings
      ensures Did(ok, ObjectOf(old(Left()), path, old(config.settings))) && (ok ==> pos > old(pos))
      decreases |source| - pos, 2
    {
      hide Trim, Quoted, ValueOf;
      SkipWhitespace();
      var matched := Match('}');
      if matched {
        return true;
      }
      ghost var goal := MembersOf(Left(), path, config.settings);
      var more := true;
      while more
        invariant old(pos) <= pos <= |source|
        invariant more ==> MembersOf(Left(), path, config.settings) == goal
        invariant !more ==> goal == if At(Left(), '}') then Parsed(Left()[1..], config.settings) else Failed
        decreases |source| - pos, more
      {
        SkipWhitespace();
        var key;
        ok, key := ParseString();
        if !ok {
          return;
        }
        SkipWhitespace();
        ok := Match(':');
        if !ok {
          return;
        }
        ok := ParseValue(Join(path, key));
        if !ok {
          return;
        }
        SkipWhitespace();
        more := Match(',');
      }
      ok := Match('}');
    }

    method ParseArray() returns (ok: bool)
      requires pos <= |source|
      modifies this`pos, config`settings
      ensures Did(ok, ArrayOf(old(Left()), old(config.settings))) && (ok ==> pos > old(pos))
      decreases |source| - pos, 2
    {
      hide Trim, Decimal, ValueOf;
      var index := 0;
      SkipWhitespace();
      var matched := Match(']');
      if matched {
        return true;
      }
      ghost var goal := ElementsOf(Left(), index, config.settings);
      var more := true;
      while more
        invariant old(pos) <= pos <= |source|
        invariant more ==> ElementsOf(Left(), index, config.settings) == goal
        invariant !more ==> goal == if At(Left(), ']') then Parsed(Left()[1..], config.settings) else Failed
        decreases |source| - pos, more
      {
        ok := ParseValue(ARRAY_PATH + Decimal(index));
        index := index + 1;
        if !ok {
          return;
        }
        SkipWhitespace();
        more := Match(',');
      }
      ok := Match(']');
    }

    method ParseString() returns (ok: bool, value: string)
      requires pos <= |source|
      modifies this`pos
      ensures old(pos) <= pos <= |source| && (ok ==> pos > old(pos))
      ensures var t := Quoted(old(Left()));
              if ok then t == Token(value, Left()) else t == NoToken
      ensures forall s, rest :: old(Left()) == "\"" + (PrintPieces(Escapes(s)) + ("\"" + rest)) ==>
                                  ok && value == s && Left() == rest
    {
      hide Escaped, Body, Behind, Prepend, PrintPieces, Escapes;
      WrittenStrings(Left());
      value := "";
      ok := Match('"');
      if !ok {
        return;
      }
      ghost var goal := Body(Left());
      BehindNothing(goal);
      while pos < |source|
        invariant old(pos) < pos <= |source|
        invariant goal == Behind(value, Body(Left()))
      {
        ghost var left := Left();
        BodyStep(left);
        var ch := source[pos];
        pos := pos + 1;
        if ch == '"' {
          BehindLast(value, Left());
          return true, value;
        }
        if ch == '\\' && pos < |source| {
          var escaped := source[pos];
          pos := pos + 1;
          assert left[2..] == Left();
          BehindMore(value, Escaped(escaped), Body(Left()));
          value := value + [Escaped(escaped)];
        } else {
          assert left[1..] == Left();
          BehindMore(value, ch, Body(Left()));
          value := value + [ch];
        }
      }
      EmptyBody();
      BehindFails(value);
      ok := false;
    }

    method ParseLiteral() returns (ok: bool, value: string)
      requires pos <= |source|
      modifies this`pos
      ensures pos == old(pos) + LiteralLength(old(Left())) && pos <= |source|
      ensures ok == (LiteralLength(old(Left())) > 0) && (ok ==> value == old(Left())[..LiteralLength(old(Left()))])
    {
      var start := pos;
      value := "";
      while pos < |source|
        invariant start <= pos <= |source|
        invariant LiteralLength(old(Left())) == pos - start + LiteralLength(Left())
      {
        if EndsLiteral(source[pos]) {
          break;
        }
        assert Left()[1..] == source[pos + 1..];
        pos := pos + 1;
      }
      ok := start != pos;
      if ok {
        value := source[start..pos];
      }
    }

    method SkipWhitespace()
      requires pos <= |source|
      modifies this`pos
      ensures old(pos) <= pos <= |source| && Left() == Trim(old(Left()))
    {
      while pos < |source| && IsSpace(source[pos])
        invariant old(pos) <= pos <= |source|
        invariant Trim(Left()) == Trim(old(Left()))
      {
        assert Left()[1..] == source[pos + 1..];
        pos := pos + 1;
      }
    }

    /** A zero character at the end of the text. */
    function Peek(): (c: char)
      reads this`pos
    {
      if pos < |source| then source[pos] else 0 as char
    }

    /** Steps over the expected character; Expect throws where this returns false. */
    method Match(expected: char) returns (ok: bool)
      requires pos <= |source| && expected != 0 as char
      modifies this`pos
      ensures ok == At(old(Left()), expected) && pos <= |source|
      ensures pos == old(pos) + if ok then 1 else 0
      ensures Left() == if ok then old(Left())[1..] else old(Left())
    {
      if Peek() != expected {
        return false;
      }
      pos := pos + 1;
      return true;
    }
  }

  function Behind(value: string, t: Token): Token {
    if t.Token? then Token(value + t.value, t.rest) else NoToken
  }

  lemma BehindNothing(t: Token)
    ensures Behind("", t) == t
  {
    if t.Token? {
      assert "" + t.value == t.value;
    }
  }

  lemma BehindLast(value: string, rest: string)
    ensures Behind(value, Token("", rest)) == Token(value, rest)
  {
    assert value + "" == value;
  }

  lemma BehindMore(value: string, c: char, t: Token)
    ensures Behind(value, Prepend(c, t)) == Behind(value + [c], t)
  {
    if t.Token? {
      assert value + ([c] + t.value) == value + [c] + t.value;
    }
  }

  lemma BehindFails(value: string)
    ensures Behind(value, NoToken) == NoToken
  {}
}
