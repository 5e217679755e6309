/** Cutting the text of an object into its fields: a scanner that skips nested brackets and
    strings, proved to find every field of a printed object, and the rows read off a stored
    value with it. */
module FieldSplitter {
  import opened Bytes
  import opened Json
  import opened JsonText

  predicate IsSpace(c: byte) { c == 0x20 || c == 0x09 || c == 0x0A || c == 0x0D }

  predicate IsOpen(c: byte) { c == OPEN_BRACE || c == OPEN_BRACKET }

  predicate IsClose(c: byte) { c == CLOSE_BRACE || c == CLOSE_BRACKET }

  /** Where a number, or anything unrecognized, ends. */
  predicate IsDelimiter(c: byte) { c == COMMA || IsClose(c) || IsSpace(c) }

  function SkipSpace(b: Bytes): (r: Bytes)
    ensures |r| <= |b|
  {
    if b != [] && IsSpace(b[0]) then SkipSpace(b[1..]) else b
  }

  function SkipScalar(b: Bytes): (r: Bytes)
    ensures |r| <= |b|
  {
    if b != [] && !IsDelimiter(b[0]) then SkipScalar(b[1..]) else b
  }

  /** Inside `depth` open brackets: what follows the bracket that closes the outermost one. */
  function SkipNested(b: Bytes, depth: nat): (r: Option<Bytes>)
    requires depth >= 1
    ensures r.Some? ==> |r.value| < |b|
    decreases |b|
  {
    if b == [] then None
    else if b[0] == QUOTE then
      match ScanString(b) case None => None case Some((_, rest)) => SkipNested(rest, depth)
    else if IsClose(b[0]) then (if depth == 1 then Some(b[1..]) else SkipNested(b[1..], depth - 1))
    else SkipNested(b[1..], if IsOpen(b[0]) then depth + 1 else depth)
  }

  function SkipWord(b: Bytes, word: Bytes): (r: Option<Bytes>)
    ensures r.Some? ==> |r.value| <= |b|
  {
    if word <= b then Some(b[|word|..]) else None
  }

  /** What follows the value `b` starts with. */
  function ScanValue(b: Bytes): (r: Option<Bytes>)
    ensures r.Some? ==> |r.value| <= |b|
  {
    if b == [] then None
    else if IsOpen(b[0]) then SkipNested(b[1..], 1)
    else if b[0] == QUOTE then match ScanString(b) { case None => None case Some((_, rest)) => Some(rest) }
    else if b[0] == TRUE[0] then SkipWord(b, TRUE)
    else if b[0] == FALSE[0] then SkipWord(b, FALSE)
    else if b[0] == NULL[0] then SkipWord(b, NULL)
    else Some(SkipScalar(b))
  }

  datatype Member = Member(name: Bytes, text: Bytes)

  /** A member's name, and its text from the value on. */
  function ScanName(b: Bytes): (r: Option<(Bytes, Bytes)>)
    ensures r.Some? ==> |r.value.1| < |b|
  {
    match ScanString(SkipSpace(b))
    case None => None
    case Some((name, rest)) =>
      var r := SkipSpace(rest);
      if r == [] || r[0] != COLON then None else Some((name, SkipSpace(r[1..])))
  }

  /** The next member, and what follows its value. */
  function ScanMember(b: Bytes): (r: Option<(Member, Bytes)>)
    ensures r.Some? ==> |r.value.1| < |b| && |r.value.0.text| < |b|
  {
    match ScanName(b)
    case None => None
    case Some((name, value)) =>
      match ScanValue(value)
      case None => None
      case Some(rest) => Some((Member(name, value[..|value| - |rest|]), SkipSpace(rest)))
  }

  function SplitMembers(b: Bytes): (r: Option<seq<Member>>)
    ensures r.Some? ==> forall m :: m in r.value ==> |m.text| < |b|
    decreases |b|
  {
    match ScanMember(b)
    case None => None
    case Some((m, rest)) =>
      if rest == [] then None
      else if rest[0] == COMMA then
        match SplitMembers(rest[1..]) { case None => None case Some(ms) => Some([m] + ms) }
      else if rest[0] == CLOSE_BRACE then Some([m])
      else None
  }

  predicate IsEnvelope(b: Bytes) { ENVELOPE <= b }

  /** The fields of an object's text, in order, each with the exact slice of its value. Every
      slice is strictly shorter than the text. */
  function SplitObject(b: Bytes): (r: Option<seq<Member>>)
    ensures r.Some? ==> forall m :: m in r.value ==> |m.text| < |b|
  {
    var s := SkipSpace(b);
    if s == [] || s[0] != OPEN_BRACE || IsEnvelope(b) then None
    else
      var inner := SkipSpace(s[1..]);
      if inner != [] && inner[0] == CLOSE_BRACE then Some([]) else SplitMembers(inner)
  }

  // --------------------------------------------------------------------------------------
  // Scanning what the printer printed
  // --------------------------------------------------------------------------------------

  function Print(v: Json): Bytes {
    match v
    case NotJson(raw) => raw
    case Null => NULL
    case Bool(b) => if b then TRUE else FALSE
    case Num(n) => n.text
    case Str(s) => Quote(s)
    case Arr(items) => [OPEN_BRACKET] + (PrintItems(items) + [CLOSE_BRACKET])
    case Obj(fs) => [OPEN_BRACE] + (PrintFields(fs) + [CLOSE_BRACE])
  }

  function PrintItems(items: Items): Bytes {
    match items
    case NoItem => []
    case Item(v, rest) => Print(v) + (if rest.NoItem? then [] else [COMMA] + PrintItems(rest))
  }

  function PrintFields(fs: Fields): Bytes {
    match fs
    case NoField => []
    case Field(n, v, rest) =>
      Quote(n) + ([COLON] + Print(v)) + (if rest.NoField? then [] else [COMMA] + PrintFields(rest))
  }

  predicate IsNumberByte(c: byte) { IsDigit(c) || c == 0x2D || c == 0x2B || c == 0x2E || c == 0x65 || c == 0x45 }

  predicate NumberText(t: Bytes) {
    t != [] && (IsDigit(t[0]) || t[0] == 0x2D) && forall i :: 0 <= i < |t| ==> IsNumberByte(t[i])
  }

  /** A document of valid strings and number literals, as a JSON serializer prints one. */
  predicate Printable(v: Json) {
    match v
    case NotJson(_) => false
    case Num(n) => NumberText(n.text)
    case Str(s) => ValidUtf8(s)
    case Arr(items) => PrintableItems(items)
    case Obj(fs) => PrintableFields(fs)
    case _ => true
  }

  predicate PrintableItems(items: Items) {
    items.Item? ==> Printable(items.head) && PrintableItems(items.tail)
  }

  predicate PrintableFields(fs: Fields) {
    fs.Field? ==> ValidUtf8(fs.name) && Printable(fs.value) && PrintableFields(fs.rest)
  }

  predicate Neutral(c: byte) { c != QUOTE && !IsOpen(c) && !IsClose(c) }

  lemma {:induction false} NeutralSkipped(t: Bytes, post: Bytes, depth: nat)
    requires depth >= 1 && forall i :: 0 <= i < |t| ==> Neutral(t[i])
    ensures SkipNested(t + post, depth) == SkipNested(post, depth)
    decreases |t|
  {
    if t == [] {
      assert t + post == post;
    } else {
      assert (t + post)[1..] == t[1..] + post;
      NeutralSkipped(t[1..], post, depth);
    }
  }

  lemma StringSkipped(s: Bytes, post: Bytes, depth: nat)
    requires depth >= 1 && ValidUtf8(s)
    ensures SkipNested(Quote(s) + post, depth) == SkipNested(post, depth)
  {
    QuotedScans(s, post);
    assert (Quote(s) + post)[0] == QUOTE;
  }

  lemma BracketSkipped(open: byte, inner: Bytes, close: byte, post: Bytes, depth: nat)
    requires depth >= 1 && IsOpen(open) && IsClose(close)
    requires SkipNested(inner + ([close] + post), depth + 1) == SkipNested([close] + post, depth + 1)
    ensures SkipNested([open] + (inner + [close]) + post, depth) == SkipNested(post, depth)
  {
    Assoc([open], inner + [close], post);
    Assoc(inner, [close], post);
    assert ([open] + (inner + ([close] + post)))[1..] == inner + ([close] + post);
    assert ([close] + post)[1..] == post;
  }

  lemma FieldLaidOut(fs: Fields, sep: Bytes, rest: Bytes, post: Bytes)
    requires fs.Field? && sep == (if fs.rest.NoField? then [] else [COMMA]) && rest == PrintFields(fs.rest)
    ensures PrintFields(fs) + post ==
      Quote(fs.name) + ([COLON] + (Print(fs.value) + (sep + (rest + post))))
  {
    var q, v := Quote(fs.name), Print(fs.value);
    assert PrintFields(fs) == q + ([COLON] + v) + (sep + rest);
    Assoc(q + ([COLON] + v), sep + rest, post);
    Assoc(sep, rest, post);
    Assoc(q, [COLON] + v, sep + (rest + post));
    Assoc([COLON], v, sep + (rest + post));
  }

  /** A printed value is skipped as a whole at any depth: its brackets balance and those inside
      its strings do not count. */
  lemma {:induction false} ValueSkipped(v: Json, post: Bytes, depth: nat)
    requires depth >= 1 && Printable(v)
    ensures SkipNested(Print(v) + post, depth) == SkipNested(post, depth)
  {
    match v
    case Str(s) => StringSkipped(s, post, depth);
    case Arr(items) =>
      ItemsSkipped(items, [CLOSE_BRACKET] + post, depth + 1);
      BracketSkipped(OPEN_BRACKET, PrintItems(items), CLOSE_BRACKET, post, depth);
    case Obj(fs) =>
      FieldsSkipped(fs, [CLOSE_BRACE] + post, depth + 1);
      BracketSkipped(OPEN_BRACE, PrintFields(fs), CLOSE_BRACE, post, depth);
    case _ => NeutralSkipped(Print(v), post, depth);
  }

  lemma {:induction false} ItemsSkipped(items: Items, post: Bytes, depth: nat)
    requires depth >= 1 && PrintableItems(items)
    ensures SkipNested(PrintItems(items) + post, depth) == SkipNested(post, depth)
  {
    if items.NoItem? {
      assert PrintItems(items) + post == post;
    } else {
      var sep := if items.tail.NoItem? then [] else [COMMA];
      var rest := PrintItems(items.tail);
      assert PrintItems(items) == Print(items.head) + (sep + rest);
      Assoc(Print(items.head), sep + rest, post);
      Assoc(sep, rest, post);
      ValueSkipped(items.head, sep + (rest + post), depth);
      NeutralSkipped(sep, rest + post, depth);
      ItemsSkipped(items.tail, post, depth);
    }
  }

  lemma {:induction false} FieldsSkipped(fs: Fields, post: Bytes, depth: nat)
    requires depth >= 1 && PrintableFields(fs)
    ensures SkipNested(PrintFields(fs) + post, depth) == SkipNested(post, depth)
  {
    if fs.NoField? {
      assert PrintFields(fs) + post == post;
    } else {
      var sep := if fs.rest.NoField? then [] else [COMMA];
      var rest := PrintFields(fs.rest);
      FieldLaidOut(fs, sep, rest, post);
      StringSkipped(fs.name, [COLON] + (Print(fs.value) + (sep + (rest + post))), depth);
      NeutralSkipped([COLON], Print(fs.value) + (sep + (rest + post)), depth);
      ValueSkipped(fs.value, sep + (rest + post), depth);
      NeutralSkipped(sep, rest + post, depth);
      FieldsSkipped(fs.rest, post, depth);
    }
  }

  lemma {:induction false} ScalarSkipped(t: Bytes, post: Bytes)
    requires forall i :: 0 <= i < |t| ==> IsNumberByte(t[i])
    requires post != [] && IsDelimiter(post[0])
    ensures SkipScalar(t + post) == post
    decreases |t|
  {
    if t == [] {
      assert t + post == post;
    } else {
      assert (t + post)[1..] == t[1..] + post;
      ScalarSkipped(t[1..], post);
    }
  }

  lemma BracketScanned(open: byte, inner: Bytes, close: byte, post: Bytes)
    requires IsOpen(open) && IsClose(close)
    requires SkipNested(inner + ([close] + post), 1) == SkipNested([close] + post, 1)
    ensures ScanValue([open] + (inner + [close]) + post) == Some(post)
  {
    Assoc([open], inner + [close], post);
    Assoc(inner, [close], post);
    assert ([open] + (inner + ([close] + post)))[1..] == inner + ([close] + post);
    assert ([close] + post)[1..] == post;
  }

  /** Scanning a printed value before a comma or a closing bracket stops exactly at its end. */
  lemma ValueScanned(v: Json, post: Bytes)
    requires Printable(v) && post != [] && IsDelimiter(post[0])
    ensures ScanValue(Print(v) + post) == Some(post)
    ensures Print(v) != [] && !IsSpace(Print(v)[0])
  {
    var b := Print(v) + post;
    match v
    case Null => assert b[|NULL|..] == post && NULL <= b;
    case Bool(x) => assert b[|Print(v)|..] == post && Print(v) <= b;
    case Num(n) => ScalarSkipped(n.text, post);
    case Str(s) => QuotedScans(s, post);
    case Arr(items) =>
      ItemsSkipped(items, [CLOSE_BRACKET] + post, 1);
      BracketScanned(OPEN_BRACKET, PrintItems(items), CLOSE_BRACKET, post);
    case Obj(fs) =>
      FieldsSkipped(fs, [CLOSE_BRACE] + post, 1);
      BracketScanned(OPEN_BRACE, PrintFields(fs), CLOSE_BRACE, post);
  }

  // --------------------------------------------------------------------------------------
  // Splitting a printed object
  // --------------------------------------------------------------------------------------

  /** Each field with the text of its value. */
  function MembersOf(fs: Fields): seq<Member> {
    match fs
    case NoField => []
    case Field(n, v, rest) => [Member(n, Print(v))] + MembersOf(rest)
  }

  lemma SpaceFree(b: Bytes)
    requires b == [] || !IsSpace(b[0])
    ensures SkipSpace(b) == b
  {
  }

  lemma MemberScanned(n: Bytes, v: Json, post: Bytes)
    requires ValidUtf8(n) && Printable(v)
    requires post != [] && IsDelimiter(post[0]) && !IsSpace(post[0])
    ensures ScanMember(Quote(n) + ([COLON] + (Print(v) + post))) == Some((Member(n, Print(v)), post))
  {
    var r := [COLON] + (Print(v) + post);
    assert (Quote(n) + r)[0] == QUOTE;
    SpaceFree(Quote(n) + r);
    QuotedScans(n, r);
    SpaceFree(r);
    ValueScanned(v, post);
    assert r[1..] == Print(v) + post;
    SpaceFree(Print(v) + post);
    SpaceFree(post);
    assert (Print(v) + post)[..|Print(v)|] == Print(v);
  }

  lemma MembersStep(b: Bytes, m: Member, rest: Bytes)
    requires ScanMember(b) == Some((m, rest)) && rest != [] && (rest[0] == COMMA || rest[0] == CLOSE_BRACE)
    ensures rest[0] == CLOSE_BRACE ==> SplitMembers(b) == Some([m])
    ensures rest[0] == COMMA && SplitMembers(rest[1..]).Some? ==>
      SplitMembers(b) == Some([m] + SplitMembers(rest[1..]).value)
  {
  }

  lemma {:induction false} MembersSplit(fs: Fields, post: Bytes)
    requires fs.Field? && PrintableFields(fs)
    ensures SplitMembers(PrintFields(fs) + ([CLOSE_BRACE] + post)) == Some(MembersOf(fs))
  {
    var sep := if fs.rest.NoField? then [] else [COMMA];
    var rest := PrintFields(fs.rest);
    var tail := sep + (rest + ([CLOSE_BRACE] + post));
    var m := Member(fs.name, Print(fs.value));
    if fs.rest.NoField? {
      assert tail == [CLOSE_BRACE] + post;
      assert MembersOf(fs) == [m];
    } else {
      assert tail[0] == COMMA && tail[1..] == rest + ([CLOSE_BRACE] + post);
      MembersSplit(fs.rest, post);
      assert MembersOf(fs) == [m] + MembersOf(fs.rest);
    }
    FieldLaidOut(fs, sep, rest, [CLOSE_BRACE] + post);
    MemberScanned(fs.name, fs.value, tail);
    MembersStep(PrintFields(fs) + ([CLOSE_BRACE] + post), m, tail);
  }

  /** Splitting the text of any printed object gives, in order, each field name and the exact
      text of its value; only a text that looks like an envelope is left whole. */
  lemma ObjectSplit(fs: Fields)
    requires PrintableFields(fs)
    ensures SplitObject(Print(Obj(fs))) == if IsEnvelope(Print(Obj(fs))) then None else Some(MembersOf(fs))
  {
    var b := Print(Obj(fs));
    SpaceFree(b);
    assert b[1..] == PrintFields(fs) + [CLOSE_BRACE];
    if fs.Field? {
      MembersSplit(fs, []);
      assert [CLOSE_BRACE] + [] == [CLOSE_BRACE];
      assert b[1..][0] == QUOTE;
    }
    SpaceFree(b[1..]);
  }

  // --------------------------------------------------------------------------------------
  // The scanning loops
  // --------------------------------------------------------------------------------------

  method SkipWs(b: Bytes, i: nat) returns (j: nat)
    requires i <= |b|
    ensures i <= j <= |b| && SkipSpace(b[i..]) == b[j..]
  {
    j := i;
    while j < |b| && IsSpace(b[j])
      invariant i <= j <= |b| && SkipSpace(b[j..]) == SkipSpace(b[i..])
    {
      Advance(b, j, 1);
      j := j + 1;
    }
  }

  /** From an opening bracket to just past the bracket that closes it. */
  method SkipBrackets(b: Bytes, i: nat) returns (r: Option<nat>)
    requires i < |b| && IsOpen(b[i])
    ensures r.None? <==> SkipNested(b[i + 1..], 1).None?
    ensures r.Some? ==> i <= r.value <= |b| && SkipNested(b[i + 1..], 1) == Some(b[r.value..])
  {
    var j, depth := i, 0;
    while j < |b|
      invariant i <= j <= |b| && depth >= 0
      invariant depth == 0 ==> j == i
      invariant depth > 0 ==> SkipNested(b[j..], depth) == SkipNested(b[i + 1..], 1)
    {
      var c := b[j];
      Advance(b, j, 1);
      if c == QUOTE {
        var s := ScanJsonString(b, j);
        if s.None? {
          return None;
        }
        j := s.value.1;
        continue;
      }
      if IsOpen(c) {
        depth := depth + 1;
      } else if IsClose(c) {
        depth := depth - 1;
        if depth == 0 {
          return Some(j + 1);
        }
      }
      j := j + 1;
    }
    return None;
  }

  method ScanWord(b: Bytes, i: nat, word: Bytes) returns (r: Option<nat>)
    requires i <= |b|
    ensures r.None? <==> SkipWord(b[i..], word).None?
    ensures r.Some? ==> i <= r.value <= |b| && SkipWord(b[i..], word) == Some(b[r.value..])
  {
    if i + |word| > |b| {
      return None;
    }
    Advance(b, i, |word|);
    assert b[i..][..|word|] == b[i..i + |word|];
    return if b[i..i + |word|] == word then Some(i + |word|) else None;
  }

  /** Step over the value at `i`, already past white space. */
  method ScanJsonValue(b: Bytes, i: nat) returns (r: Option<nat>)
    requires i <= |b|
    ensures r.None? <==> ScanValue(b[i..]).None?
    ensures r.Some? ==> i <= r.value <= |b| && ScanValue(b[i..]) == Some(b[r.value..])
  {
    if i >= |b| {
      return None;
    }
    var c := b[i];
    Advance(b, i, 1);
    if IsOpen(c) {
      r := SkipBrackets(b, i);
    } else if c == QUOTE {
      var s := ScanJsonString(b, i);
      r := if s.None? then None else Some(s.value.1);
    } else if c == TRUE[0] {
      r := ScanWord(b, i, TRUE);
    } else if c == FALSE[0] {
      r := ScanWord(b, i, FALSE);
    } else if c == NULL[0] {
      r := ScanWord(b, i, NULL);
    } else {
      var j := i;
      while j < |b| && !IsDelimiter(b[j])
        invariant i <= j <= |b| && SkipScalar(b[j..]) == SkipScalar(b[i..])
      {
        Advance(b, j, 1);
        j := j + 1;
      }
      r := Some(j);
    }
  }

  method ReadName(b: Bytes, i: nat) returns (r: Option<(Bytes, nat)>)
    requires i <= |b|
    ensures r.None? <==> ScanName(b[i..]).None?
    ensures r.Some? ==> i < r.value.1 <= |b| && ScanName(b[i..]) == Some((r.value.0, b[r.value.1..]))
  {
    var j := SkipWs(b, i);
    var name := ScanJsonString(b, j);
    if name.None? {
      return None;
    }
    j := SkipWs(b, name.value.1);
    if j >= |b| || b[j] != COLON {
      return None;
    }
    Advance(b, j, 1);
    var start := SkipWs(b, j + 1);
    return Some((name.value.0, start));
  }

  method ReadMember(b: Bytes, i: nat) returns (r: Option<(Member, nat)>)
    requires i <= |b|
    ensures r.None? <==> ScanMember(b[i..]).None?
    ensures r.Some? ==> i < r.value.1 <= |b| && ScanMember(b[i..]) == Some((r.value.0, b[r.value.1..]))
  {
    var name := ReadName(b, i);
    if name.None? {
      return None;
    }
    var start := name.value.1;
    var end := ScanJsonValue(b, start);
    if end.None? {
      return None;
    }
    assert b[start..][..end.value - start] == b[start..end.value];
    var j := SkipWs(b, end.value);
    return Some((Member(name.value.0, b[start..end.value]), j));
  }

  function PrependMembers(done: seq<Member>, r: Option<seq<Member>>): Option<seq<Member>> {
    match r case None => None case Some(ms) => Some(done + ms)
  }

  lemma PrependNoMember(r: Option<seq<Member>>)
    ensures PrependMembers([], r) == r
  {
    if r.Some? { assert [] + r.value == r.value; }
  }

  datatype Step = Stop | Last(member: Member) | More(member: Member, next: nat)

  /** One member and the comma or brace after it. */
  method ReadStep(b: Bytes, i: nat) returns (r: Step)
    requires i <= |b|
    ensures r.More? ==> i < r.next <= |b|
    ensures SplitMembers(b[i..]) == match r {
      case Stop => None
      case Last(m) => Some([m])
      case More(m, next) => PrependMembers([m], SplitMembers(b[next..]))
    }
  {
    var m := ReadMember(b, i);
    if m.None? {
      return Stop;
    }
    var j := m.value.1;
    if j >= |b| {
      return Stop;
    }
    Advance(b, j, 1);
    return if b[j] == COMMA then More(m.value.0, j + 1) else if b[j] == CLOSE_BRACE then Last(m.value.0) else Stop;
  }

  lemma PrependTwice(a: seq<Member>, b: seq<Member>, r: Option<seq<Member>>)
    ensures PrependMembers(a, PrependMembers(b, r)) == PrependMembers(a + b, r)
  {
    if r.Some? { Assoc(a, b, r.value); }
  }

  /** The members from `i` on, up to the brace that closes the object. */
  method ReadMembers(b: Bytes, i: nat) returns (r: Option<seq<Member>>)
    requires i <= |b|
    ensures r == SplitMembers(b[i..])
  {
    var j, out := i, [];
    ghost var all := SplitMembers(b[i..]);
    PrependNoMember(all);
    while true
      invariant j <= |b|
      invariant all == PrependMembers(out, SplitMembers(b[j..]))
      decreases |b| - j
    {
      var step := ReadStep(b, j);
      match step {
        case Stop => return None;
        case Last(m) => return Some(out + [m]);
        case More(m, next) =>
          PrependTwice(out, [m], SplitMembers(b[next..]));
          out, j := out + [m], next;
      }
    }
  }

  /** Split an object's text into its fields. */
  method SplitObjectFields(b: Bytes) returns (r: Option<seq<Member>>)
    ensures r == SplitObject(b)
  {
    var i := SkipWs(b, 0);
    assert b[0..] == b;
    if i >= |b| || b[i] != OPEN_BRACE || IsEnvelope(b) {
      return None;
    }
    Advance(b, i, 1);
    i := SkipWs(b, i + 1);
    if i < |b| && b[i] == CLOSE_BRACE {
      return Some([]);
    }
    r := ReadMembers(b, i);
  }
}
