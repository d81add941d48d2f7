/** `readGitFiles`: reading the length-delimited answers of `git cat-file --batch`. */
module GitBatch {
  import opened Basics
  import opened Decimals

  datatype Error =
    | NoHeader(path: string)
    | Missing(path: string)
    | InvalidSize(path: string)
    | Truncated(path: string)

  datatype Result<+T> = Ok(value: T) | Err(error: Error)

  const MISSING: seq<Byte> := [32, 109, 105, 115, 115, 105, 110, 103]  // " missing"
  const PLUS: Byte := 43
  const MINUS: Byte := 45

  predicate EndsWith(s: seq<Byte>, suffix: seq<Byte>) {
    |suffix| <= |s| && s[|s| - |suffix|..] == suffix
  }

  /** Field `k` of `s` split at spaces, empty when there are fewer. */
  function SpaceField(s: seq<Byte>, k: nat): seq<Byte> {
    var end := FirstIndex(s, SPACE, 0);
    if k == 0 then s[..end]
    else if end == |s| then []
    else SpaceField(s[end + 1..], k - 1)
  }

  predicate IsBlankByte(b: Byte) {
    9 <= b <= 13 || b == 32
  }

  function SkipBlanks(s: seq<Byte>): seq<Byte> {
    if s != [] && IsBlankByte(s[0]) then SkipBlanks(s[1..]) else s
  }

  /** The longest prefix of digits. */
  function DigitPrefix(s: seq<Byte>): (p: seq<Byte>)
    ensures forall i :: 0 <= i < |p| ==> IsDigit(p[i])
  {
    if s != [] && IsDigit(s[0]) then [s[0]] + DigitPrefix(s[1..]) else []
  }

  /** `Number.parseInt(s, 10)`: blanks, a sign, then as many digits as there are; none is no number. */
  function ParseInt(s: seq<Byte>): Option<int> {
    var t := SkipBlanks(s);
    var negative := t != [] && t[0] == MINUS;
    var digits := DigitPrefix(if t != [] && (t[0] == MINUS || t[0] == PLUS) then t[1..] else t);
    var n: int := Value(digits);
    if digits == [] then None else Some(if negative then -n else n)
  }

  /** The size a header announces, if it is a usable one. */
  function HeaderSize(header: seq<Byte>): Option<nat> {
    match ParseInt(SpaceField(header, 2))
    case None => None
    case Some(n) => if 0 <= n <= MAX_SAFE_INTEGER then Some(n) else None
  }

  // ----- one answer

  /** A parsed answer: its header line and its content. */
  datatype Answer = Answer(header: seq<Byte>, content: seq<Byte>)

  ghost function Encode(a: Answer): seq<Byte> {
    a.header + [NEWLINE] + a.content + [NEWLINE]
  }

  ghost function EncodeAll(answers: seq<Answer>): seq<Byte> {
    if answers == [] then [] else EncodeAll(answers[..|answers| - 1]) + Encode(answers[|answers| - 1])
  }

  /** A header line that announces this content. */
  ghost predicate Announces(a: Answer) {
    && NEWLINE !in a.header && !EndsWith(a.header, MISSING)
    && HeaderSize(a.header) == Some(|a.content|)
  }

  /** The turn of the loop that reads one answer. */
  function ReadAnswer(output: seq<Byte>, offset: nat, path: string): (r: Result<Answer>)
    requires offset <= |output|
  {
    var headerEnd := FirstIndex(output, NEWLINE, offset);
    if headerEnd == |output| then Err(NoHeader(path))
    else
      var header := output[offset..headerEnd];
      if EndsWith(header, MISSING) then Err(Missing(path))
      else match HeaderSize(header)
        case None => Err(InvalidSize(path))
        case Some(size) =>
          var contentEnd := headerEnd + 1 + size;
          if contentEnd >= |output| || output[contentEnd] != NEWLINE then Err(Truncated(path))
          else Ok(Answer(header, output[headerEnd + 1..contentEnd]))
  }

  lemma JoinSlices(s: seq<Byte>, i: nat, j: nat, k: nat)
    requires i <= j <= k <= |s|
    ensures s[i..j] + s[j..k] == s[i..k]
  {
  }

  /** Header, line ending, content and line ending lie side by side. */
  lemma EncodedSlice(s: seq<Byte>, i: nat, h: nat, e: nat)
    requires i <= h < e < |s| && s[h] == NEWLINE && s[e] == NEWLINE
    ensures s[i..h] + [NEWLINE] + s[h + 1..e] + [NEWLINE] == s[i..e + 1]
  {
    JoinSlices(s, i, h, h + 1);
    JoinSlices(s, i, h + 1, e);
    JoinSlices(s, i, e, e + 1);
    assert s[h..h + 1] == [NEWLINE] && s[e..e + 1] == [NEWLINE];
  }

  /** An accepted answer is announced by its header, and its encoding is what was read. */
  lemma ReadAnswerSound(output: seq<Byte>, offset: nat, path: string)
    requires offset <= |output| && ReadAnswer(output, offset, path).Ok?
    ensures var a := ReadAnswer(output, offset, path).value;
            Announces(a) && offset + |Encode(a)| <= |output| && output[offset..offset + |Encode(a)|] == Encode(a)
  {
    var a := ReadAnswer(output, offset, path).value;
    var h := FirstIndex(output, NEWLINE, offset);
    var end := h + 1 + |a.content|;
    EncodedSlice(output, offset, h, end);
    HeaderHasNoNewline(output, offset, h);
  }

  /** Why the bytes from `offset` on are no answer: no line is left; the line ends in ` missing`; it names no usable size;
      or no line feed stands where the announced content ends. */
  ghost predicate Fails(output: seq<Byte>, offset: nat, e: Error)
    requires offset <= |output|
  {
    match e
    case NoHeader(_) => NEWLINE !in output[offset..]
    case Missing(_) => exists h :: IsLine(output, offset, h) && EndsWith(output[offset..h], [32, 109, 105, 115, 115, 105, 110, 103])
    case InvalidSize(_) => exists h :: IsLine(output, offset, h) && HeaderSize(output[offset..h]).None?
    case Truncated(_) =>
      exists h, size: nat :: IsLine(output, offset, h) && HeaderSize(output[offset..h]) == Some(size) &&
        !(h + 1 + size < |output| && output[h + 1 + size] == 10)
  }

  ghost predicate IsLine(output: seq<Byte>, from: nat, end: int) {
    from <= end < |output| && output[end] == 10 && 10 !in output[from..end]
  }

  lemma ReadAnswerFails(output: seq<Byte>, offset: nat, path: string)
    requires offset <= |output| && ReadAnswer(output, offset, path).Err?
    ensures ReadAnswer(output, offset, path).error.path == path
    ensures Fails(output, offset, ReadAnswer(output, offset, path).error)
  {
    var h := FirstIndex(output, NEWLINE, offset);
    HeaderHasNoNewline(output, offset, h);
    if h < |output| {
      assert IsLine(output, offset, h);
    } else {
      assert output[offset..] == output[offset..h];
    }
  }

  lemma HeaderHasNoNewline(output: seq<Byte>, offset: nat, h: nat)
    requires offset <= h <= |output| && h == FirstIndex(output, NEWLINE, offset)
    ensures NEWLINE !in output[offset..h]
  {
  }

  /** Where the pieces of an encoded answer lie. */
  lemma PiecesOf(s: seq<Byte>, a: Answer)
    requires s == Encode(a)
    ensures s[..|a.header|] == a.header && s[|a.header|] == NEWLINE
    ensures s[|a.header| + 1..|s| - 1] == a.content && s[|s| - 1] == NEWLINE
  {
  }

  lemma SliceOfSlice(s: seq<Byte>, from: nat, to: nat, i: nat, j: nat)
    requires from <= to <= |s| && i <= j <= to - from
    ensures s[from..to][i..j] == s[from + i..from + j]
  {
    var a, b := s[from..to][i..j], s[from + i..from + j];
    assert forall k :: 0 <= k < j - i ==> a[k] == s[from + i + k] == b[k];
  }

  /** Whatever follows, a well-announced answer is read back whole. */
  lemma ReadAnswerComplete(output: seq<Byte>, offset: nat, path: string, a: Answer)
    requires Announces(a) && offset + |Encode(a)| <= |output| && output[offset..offset + |Encode(a)|] == Encode(a)
    ensures ReadAnswer(output, offset, path) == Ok(a)
  {
    LocatePieces(output, offset, a);
    HeaderFound(output, offset, a.header);
  }

  lemma LocatePieces(output: seq<Byte>, offset: nat, a: Answer)
    requires offset + |Encode(a)| <= |output| && output[offset..offset + |Encode(a)|] == Encode(a)
    ensures var h, end := offset + |a.header|, offset + |Encode(a)|;
            && output[offset..h] == a.header && output[h] == NEWLINE
            && output[h + 1..end - 1] == a.content && output[end - 1] == NEWLINE
  {
    var h, end := |a.header|, offset + |Encode(a)|;
    var whole := output[offset..end];
    PiecesOf(whole, a);
    SliceOfSlice(output, offset, end, 0, h);
    SliceOfSlice(output, offset, end, h + 1, |whole| - 1);
    assert output[offset + h] == whole[h] && output[end - 1] == whole[|whole| - 1];
  }

  lemma HeaderFound(output: seq<Byte>, offset: nat, header: seq<Byte>)
    requires offset + |header| < |output| && output[offset..offset + |header|] == header && NEWLINE !in header
    requires output[offset + |header|] == NEWLINE
    ensures FirstIndex(output, NEWLINE, offset) == offset + |header|
  {
    forall j | offset <= j < offset + |header|
      ensures output[j] != NEWLINE
    {
      assert output[j] == output[offset..offset + |header|][j - offset];
      assert header[j - offset] in header;
    }
    IndexAfter(output, NEWLINE, offset, offset + |header|);
  }

  // ----- the whole stream

  ghost function Contents(paths: seq<string>, answers: seq<Answer>): map<string, seq<Byte>>
    requires |paths| == |answers|
  {
    if paths == [] then map[]
    else Contents(paths[..|paths| - 1], answers[..|answers| - 1])[paths[|paths| - 1] := answers[|answers| - 1].content]
  }

  /** Every path has the content of its answer; of a path asked for twice the later answer counts. */
  lemma {:induction false} ContentsAt(paths: seq<string>, answers: seq<Answer>, i: nat)
    requires |paths| == |answers| && i < |paths| && forall j :: i < j < |paths| ==> paths[j] != paths[i]
    ensures paths[i] in Contents(paths, answers) && Contents(paths, answers)[paths[i]] == answers[i].content
    decreases |paths|
  {
    if i < |paths| - 1 {
      ContentsAt(paths[..|paths| - 1], answers[..|answers| - 1], i);
    }
  }

  /** `output` starts with well-announced answers, one for each path. */
  ghost predicate Reads(output: seq<Byte>, paths: seq<string>, given: seq<Answer>) {
    |given| == |paths| && (forall a :: a in given ==> Announces(a)) && EncodeAll(given) <= output
  }

  /** Any other reading of the output agrees with the next answer. */
  lemma GivenIsNext(output: seq<Byte>, paths: seq<string>, answers: seq<Answer>, n: nat, offset: nat)
    requires n < |paths| && offset <= |output| && EncodeAll(answers) == output[..offset]
    requires forall given :: Reads(output, paths, given) ==> given[..n] == answers
    ensures forall given :: Reads(output, paths, given) ==> ReadAnswer(output, offset, paths[n]) == Ok(given[n])
  {
    forall given | Reads(output, paths, given)
      ensures ReadAnswer(output, offset, paths[n]) == Ok(given[n])
    {
      NextOfGiven(output, paths, given, n, offset);
    }
  }

  lemma AdvanceEncoding(output: seq<Byte>, path: string, answers: seq<Answer>, offset: nat, a: Answer)
    requires offset <= |output| && EncodeAll(answers) == output[..offset] && ReadAnswer(output, offset, path) == Ok(a)
    ensures Announces(a) && offset + |Encode(a)| <= |output|
    ensures EncodeAll(answers + [a]) == output[..offset + |Encode(a)|]
  {
    ReadAnswerSound(output, offset, path);
    assert (answers + [a])[..|answers|] == answers;
    JoinSlices(output, 0, offset, offset + |Encode(a)|);
  }

  lemma AdvanceContents(paths: seq<string>, answers: seq<Answer>, n: nat, a: Answer)
    requires |answers| == n < |paths|
    ensures Contents(paths[..n + 1], answers + [a]) == Contents(paths[..n], answers)[paths[n] := a.content]
  {
    assert (answers + [a])[..n] == answers && paths[..n + 1][..n] == paths[..n];
  }

  lemma AdvanceGiven(given: seq<Answer>, answers: seq<Answer>, n: nat, a: Answer)
    requires n < |given| && given[..n] == answers && given[n] == a
    ensures given[..n + 1] == answers + [a]
  {
  }

  /** One more answer read extends everything known about the ones before. */
  lemma Advance(output: seq<Byte>, paths: seq<string>, answers: seq<Answer>, n: nat, offset: nat, a: Answer)
    requires n < |paths| && |answers| == n && offset <= |output| && EncodeAll(answers) == output[..offset]
    requires ReadAnswer(output, offset, paths[n]) == Ok(a)
    requires forall given :: Reads(output, paths, given) ==> given[..n] == answers && given[n] == a
    ensures Announces(a) && offset + |Encode(a)| <= |output|
    ensures EncodeAll(answers + [a]) == output[..offset + |Encode(a)|]
    ensures Contents(paths[..n + 1], answers + [a]) == Contents(paths[..n], answers)[paths[n] := a.content]
    ensures forall given :: Reads(output, paths, given) ==> given[..n + 1] == answers + [a]
  {
    AdvanceEncoding(output, paths[n], answers, offset, a);
    AdvanceContents(paths, answers, n, a);
    forall given | Reads(output, paths, given)
      ensures given[..n + 1] == answers + [a]
    {
      AdvanceGiven(given, answers, n, a);
    }
  }

  /** The loop of `readGitFiles`, which also reports what it read. Accepting is reading well-announced
      answers whose encoding is a prefix of the output; and any such prefix is accepted as just those answers. */
  method ReadGitFiles(output: seq<Byte>, paths: seq<string>)
    returns (r: Result<map<string, seq<Byte>>>, ghost answers: seq<Answer>)
    ensures r.Ok? ==> Reads(output, paths, answers) && r.value == Contents(paths, answers)
    ensures r.Err? ==> |answers| < |paths| && Reads(output, paths[..|answers|], answers)
    ensures r.Err? ==> r.error.path == paths[|answers|] && Fails(output, |EncodeAll(answers)|, r.error)
    ensures forall given :: Reads(output, paths, given) ==> r == Ok(Contents(paths, given))
  {
    var contents := map[];
    var offset: nat := 0;
    answers := [];
    for n := 0 to |paths|
      invariant offset <= |output| && |answers| == n
      invariant forall a :: a in answers ==> Announces(a)
      invariant EncodeAll(answers) == output[..offset]
      invariant contents == Contents(paths[..n], answers)
      invariant forall given :: Reads(output, paths, given) ==> given[..n] == answers
    {
      var one := ReadAnswer(output, offset, paths[n]);
      GivenIsNext(output, paths, answers, n, offset);
      if one.Err? {
        ReadAnswerFails(output, offset, paths[n]);
        return Err(one.error), answers;
      }
      Advance(output, paths, answers, n, offset, one.value);
      contents := contents[paths[n] := one.value.content];
      offset := offset + |one.value.header| + 1 + |one.value.content| + 1;
      answers := answers + [one.value];
    }
    assert paths[..|paths|] == paths;
    r := Ok(contents);
    forall given | Reads(output, paths, given)
      ensures given == answers
    {
      assert given[..|paths|] == given;
    }
  }

  lemma {:induction false} EncodePrefix(answers: seq<Answer>, n: nat)
    requires n <= |answers|
    ensures EncodeAll(answers[..n]) <= EncodeAll(answers)
    decreases |answers| - n
  {
    if n < |answers| {
      EncodePrefix(answers, n + 1);
      assert answers[..n + 1][..n] == answers[..n];
    } else {
      assert answers[..n] == answers;
    }
  }

  lemma NextOfGiven(output: seq<Byte>, paths: seq<string>, given: seq<Answer>, n: nat, offset: nat)
    requires Reads(output, paths, given) && n < |paths| && offset <= |output|
    requires EncodeAll(given[..n]) == output[..offset]
    ensures ReadAnswer(output, offset, paths[n]) == Ok(given[n])
  {
    EncodePrefix(given, n + 1);
    assert given[..n + 1][..n] == given[..n];
    var a := given[n];
    assert a in given;
    assert EncodeAll(given[..n + 1]) == output[..offset] + Encode(a);
    assert output[offset..offset + |Encode(a)|] == Encode(a);
    ReadAnswerComplete(output, offset, paths[n], a);
  }

  // ----- what git prints

  /** `<id> <type> <size>` for a blob of that size. */
  function Header(id: seq<Byte>, kind: seq<Byte>, size: nat): seq<Byte> {
    id + [SPACE] + kind + [SPACE] + Decimal(size)
  }

  lemma {:induction false} DigitsAreWhole(s: seq<Byte>)
    requires forall i :: 0 <= i < |s| ==> IsDigit(s[i])
    ensures DigitPrefix(s) == s
  {
    if s != [] {
      DigitsAreWhole(s[1..]);
    }
  }

  lemma FirstField(field: seq<Byte>, rest: seq<Byte>, k: nat)
    requires SPACE !in field && k > 0
    ensures SpaceField(field + [SPACE] + rest, k) == SpaceField(rest, k - 1)
  {
    var s := field + [SPACE] + rest;
    assert s[|field|] == SPACE;
    assert forall j :: 0 <= j < |field| ==> s[j] == field[j];
    IndexAfter(s, SPACE, 0, |field|);
    assert s[|field| + 1..] == rest;
  }

  lemma OnlyField(field: seq<Byte>)
    requires SPACE !in field
    ensures SpaceField(field, 0) == field
  {
    IndexOfNone(field, SPACE, 0);
  }

  lemma NumeralParses(n: nat)
    ensures ParseInt(Decimal(n)) == Some(n)
  {
    var size := Decimal(n);
    assert IsDigit(size[0]);
    DigitsAreWhole(size);
    ValueOfDecimal(n);
  }

  lemma EndsWithLast(s: seq<Byte>, suffix: seq<Byte>)
    requires EndsWith(s, suffix) && suffix != []
    ensures s[|s| - 1] == suffix[|suffix| - 1]
  {
    assert s[|s| - |suffix|..][|suffix| - 1] == s[|s| - 1];
  }

  lemma LastByteTells(s: seq<Byte>)
    requires s != [] && IsDigit(s[|s| - 1])
    ensures !EndsWith(s, MISSING)
  {
    if EndsWith(s, MISSING) {
      EndsWithLast(s, MISSING);
    }
  }

  lemma ThirdField(id: seq<Byte>, kind: seq<Byte>, size: nat)
    requires SPACE !in id && SPACE !in kind
    ensures SpaceField(Header(id, kind, size), 2) == Decimal(size)
  {
    assert Header(id, kind, size) == id + [SPACE] + (kind + [SPACE] + Decimal(size));
    FirstField(id, kind + [SPACE] + Decimal(size), 2);
    FirstField(kind, Decimal(size), 1);
    OnlyField(Decimal(size));
  }

  lemma HeaderBytes(id: seq<Byte>, kind: seq<Byte>, size: nat)
    requires NEWLINE !in id && NEWLINE !in kind
    ensures NEWLINE !in Header(id, kind, size) && !EndsWith(Header(id, kind, size), MISSING)
  {
    var header, numeral := Header(id, kind, size), Decimal(size);
    assert header[|header| - 1] == numeral[|numeral| - 1];
    LastByteTells(header);
  }

  /** Git's header announces its content, embedded newlines and all. */
  lemma HeaderAnnounces(id: seq<Byte>, kind: seq<Byte>, content: seq<Byte>)
    requires SPACE !in id && SPACE !in kind && NEWLINE !in id && NEWLINE !in kind
    requires |content| <= MAX_SAFE_INTEGER
    ensures Announces(Answer(Header(id, kind, |content|), content))
  {
    HeaderBytes(id, kind, |content|);
    ThirdField(id, kind, |content|);
    NumeralParses(|content|);
  }

  const TWO_BYTES: seq<Byte> := [97, 49, 32, 98, 108, 111, 98, 32, 50, 10, 120, 121, 10]  // "a1 blob 2\nxy\n"

  lemma TwoBytesHeader()
    ensures Header([97, 49], [98, 108, 111, 98], 2) == [97, 49, 32, 98, 108, 111, 98, 32, 50]
  {
    assert Decimal(2) == [50];
  }

  lemma TwoBytesEncoded(a: Answer)
    requires a == Answer([97, 49, 32, 98, 108, 111, 98, 32, 50], [120, 121])
    ensures Encode(a) == TWO_BYTES
  {
  }

  /** An answer of two bytes, as git prints it. */
  lemma TwoBytesRead(output: seq<Byte>, path: string, a: Answer)
    requires output == TWO_BYTES && a == Answer([97, 49, 32, 98, 108, 111, 98, 32, 50], [120, 121])
    ensures ReadAnswer(output, 0, path) == Ok(a)
  {
    TwoBytesHeader();
    TwoBytesEncoded(a);
    HeaderAnnounces([97, 49], [98, 108, 111, 98], a.content);
    assert output[0..|output|] == output;
    ReadAnswerComplete(output, 0, path, a);
  }

  lemma MinusOne()
    ensures ParseInt([45, 49]) == Some(-1)
  {
    var t: seq<Byte>, digits: seq<Byte> := [45, 49], [49];
    assert t[1..] == digits && digits[1..] == [] && digits[..0] == [];
    assert DigitPrefix(digits) == digits && Value(digits) == 1;
    assert SkipBlanks(t) == t;
  }

  lemma OneAndMore()
    ensures ParseInt([49, 120]) == Some(1)
  {
    var t: seq<Byte>, digits: seq<Byte> := [49, 120], [49];
    assert t[1..] == [120] && digits[..0] == [];
    assert DigitPrefix(t) == digits && Value(digits) == 1;
    assert SkipBlanks(t) == t;
  }

  /** A minus sign makes a size unusable, and so does the lack of a third field; behind a number anything may follow. */
  lemma SizesRead(before: seq<Byte>, id: seq<Byte>, kind: seq<Byte>)
    requires SPACE !in id && SPACE !in kind && before == id + [32] + (kind + [32])
    ensures HeaderSize(before + [45, 49]) == None
    ensures HeaderSize(id + [32] + kind) == None
    ensures HeaderSize(before + [49, 120]) == Some(1)
  {
    SizeField(id, kind, [45, 49]);
    SizeField(id, kind, [49, 120]);
    MinusOne();
    OneAndMore();
    FirstField(id, kind, 2);
    IndexOfNone(kind, SPACE, 0);
    assert SpaceField(kind, 1) == [];
  }

  lemma SizeField(id: seq<Byte>, kind: seq<Byte>, size: seq<Byte>)
    requires SPACE !in id && SPACE !in kind && SPACE !in size
    ensures SpaceField(id + [32] + (kind + [32]) + size, 2) == size
  {
    assert id + [32] + (kind + [32]) + size == id + [32] + (kind + [32] + size);
    FirstField(id, kind + [SPACE] + size, 2);
    FirstField(kind, size, 1);
    OnlyField(size);
  }
}
