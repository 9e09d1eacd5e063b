/** The text side of `BmFontReader` (Walgelijk/Text/BmFont/BmFontReader.cs):
    reading `key=value` fields out of the lines of a BMFont description,
    assembling the font header and page table, the single-page check and
    the kerning table. Lines and keys are compared character by character;
    the culture-sensitive comparison of the source's `StartsWith` and
    `IndexOf` is not modelled. */
module BmFontReader {
  import opened Common
  import opened Numbers

  /** A C# `char`: one UTF-16 code unit. */
  type Char16 = x: int | 0 <= x < 0x1_0000

  /** The exceptions the reader lets escape. */
  datatype FontError =
    | IndexOutOfRange          // `line[index]` or `kerningLines[i]` past the end
    | MalformedPageTable       // the `ArgumentException` thrown by `GetInfo`'s page loop
    | OnlyOnePageSupported     // `ParsePages` with a page count other than 1
    | NullPagePath             // `Path.Combine` given a null page path
    | DuplicateKerning         // `Dictionary.Add` of a kerning pair already present

  datatype BmFontInfo = BmFontInfo(
    Name: string, Size: int, Bold: bool, Italic: bool, Smooth: bool,
    Width: int, Height: int, PageCount: int, LineHeight: int, Base: int,
    GlyphCount: int, KerningCount: int,
    PagePaths: seq<Option<string>>)

  datatype Kerning = Kerning(FirstChar: Char16, SecondChar: Char16, Amount: int)

  datatype KerningPair = KerningPair(Next: Char16, Current: Char16)

  // ---------------------------------------------------------------- strings

  predicate StartsWith(s: string, prefix: string)
  {
    |prefix| <= |s| && s[..|prefix|] == prefix
  }

  predicate OccursAt(s: string, t: string, i: int)
  {
    0 <= i && i + |t| <= |s| && s[i..i + |t|] == t
  }

  /** `s.IndexOf(t)` searching from `from`: the first position at or after
      `from` where `t` occurs, or -1. */
  function IndexOfFrom(s: string, t: string, from: nat): (i: int)
    requires from <= |s|
    ensures i == -1 || (from <= i && OccursAt(s, t, i))
    decreases |s| - from
  {
    if OccursAt(s, t, from) then from
    else if from == |s| then -1
    else IndexOfFrom(s, t, from + 1)
  }

  /** `s.IndexOf(c, from)`: the first position at or after `from` holding
      `c`, or -1. */
  function IndexOfChar(s: string, c: char, from: nat): (i: int)
    requires from <= |s|
    ensures i == -1 || (from <= i < |s| && s[i] == c)
    decreases |s| - from
  {
    if from == |s| then -1
    else if s[from] == c then from
    else IndexOfChar(s, c, from + 1)
  }

  /** `IndexOfFrom` finds the first occurrence, and -1 means there is none. */
  lemma {:induction false} IndexOfFromFirst(s: string, t: string, from: nat)
    requires from <= |s|
    ensures var i := IndexOfFrom(s, t, from);
      && (i == -1 ==> forall j :: from <= j <= |s| ==> !OccursAt(s, t, j))
      && (i >= 0 ==> forall j :: from <= j < i ==> !OccursAt(s, t, j))
    decreases |s| - from
  {
    if !OccursAt(s, t, from) && from < |s| {
      IndexOfFromFirst(s, t, from + 1);
    }
  }

  /** `IndexOfChar` finds the first occurrence, and -1 means there is none. */
  lemma {:induction false} IndexOfCharFirst(s: string, c: char, from: nat)
    requires from <= |s|
    ensures var i := IndexOfChar(s, c, from);
      && (i == -1 ==> forall j :: from <= j < |s| ==> s[j] != c)
      && (i >= 0 ==> forall j :: from <= j < i ==> s[j] != c)
    decreases |s| - from
  {
    if from < |s| && s[from] != c {
      IndexOfCharFirst(s, c, from + 1);
    }
  }

  /** `(char)n`: the low 16 bits of an `int`. */
  function ToChar16(n: int): (c: Char16)
    ensures 0 <= n < 0x1_0000 ==> c == n
  {
    n % 0x1_0000
  }

  // ------------------------------------------------------- key=value fields

  /** The value of a field whose `=` is followed by position `start`: it
      runs to the next `"` when it starts with `"`, else to the next space
      or the end of the line. It lies right after `start` (and after the
      opening quote, if any), holds no delimiter, and is followed by the
      delimiter or by the end of the line. */
  function FieldValue(line: string, start: nat): (v: string)
    requires start < |line|
    ensures
      var delimiter := if line[start] == '"' then '"' else ' ';
      var from := if line[start] == '"' then start + 1 else start;
      && from + |v| <= |line| && line[from..from + |v|] == v
      && (forall k :: 0 <= k < |v| ==> v[k] != delimiter)
      && (from + |v| == |line| || line[from + |v|] == delimiter)
  {
    var delimiter := if line[start] == '"' then '"' else ' ';
    var from := if line[start] == '"' then start + 1 else start;
    var found := IndexOfChar(line, delimiter, from);
    IndexOfCharFirst(line, delimiter, from);
    var endIndex := if found == -1 then |line| else found;
    var v := line[from..endIndex];
    assert forall k :: 0 <= k < |v| ==> v[k] == line[from + k];
    v
  }

  /** `GetStringFrom(name, line)`: `None` (the source's null) when
      `name=` does not occur; otherwise the value after the first
      occurrence (`IndexOfFromFirst`). A key that ends the line makes
      `line[index]` throw. */
  function GetStringFrom(name: string, line: string): (r: Result<Option<string>, FontError>)
    ensures r == Success(None) <==> IndexOfFrom(line, name + "=", 0) == -1
    ensures r.Failure? <==> var i := IndexOfFrom(line, name + "=", 0); i >= 0 && i + |name| + 1 == |line|
  {
    var target := name + "=";
    var index := IndexOfFrom(line, target, 0);
    if index == -1 then Success(None)
    else
      var start := index + |target|;
      if start == |line| then Failure(IndexOutOfRange)
      else Success(Some(FieldValue(line, start)))
  }

  /** `GetIntFrom`: the field read as an `int`, 0 when it is missing or not an
      integer; the failure of `GetStringFrom` passes through. */
  function GetIntFrom(name: string, line: string): (r: Result<int, FontError>)
    ensures r.Success? ==> InInt32(r.value)
    ensures r.Failure? <==> GetStringFrom(name, line).Failure?
    ensures GetStringFrom(name, line) == Success(None) ==> r == Success(0)
  {
    match GetStringFrom(name, line)
    case Failure(e) => Failure(e)
    case Success(None) => Success(0)
    case Success(Some(v)) => Success(ParseInt32(v).GetOr(0))
  }

  /** `GetBoolFrom`: true exactly when the field reads as the integer 1. */
  function GetBoolFrom(name: string, line: string): (r: Result<bool, FontError>)
    ensures r.Failure? <==> GetIntFrom(name, line).Failure?
    ensures r.Success? ==> (r.value <==> GetIntFrom(name, line).value == 1)
  {
    match GetIntFrom(name, line)
    case Failure(e) => Failure(e)
    case Success(n) => Success(n == 1)
  }

  /** A value whose delimiter first occurs at `e` runs up to `e`. */
  lemma FieldValueUpTo(line: string, start: nat, e: nat)
    requires start < |line|
    requires var from := if line[start] == '"' then start + 1 else start;
      from <= e < |line| && line[e] == (if line[start] == '"' then '"' else ' ') &&
      forall j :: from <= j < e ==> line[j] != (if line[start] == '"' then '"' else ' ')
    ensures FieldValue(line, start) == line[if line[start] == '"' then start + 1 else start..e]
  {
    var delimiter := if line[start] == '"' then '"' else ' ';
    var from := if line[start] == '"' then start + 1 else start;
    IndexOfCharFirst(line, delimiter, from);
    assert IndexOfChar(line, delimiter, from) == e;
  }

  /** An unquoted value that is followed by a space is read back exactly. */
  lemma GetStringFromPlain(name: string, before: string, v: string, after: string)
    requires IndexOfFrom(before + name + "=" + v + " " + after, name + "=", 0) == |before|
    requires v == [] || v[0] != '"'
    requires forall k :: 0 <= k < |v| ==> v[k] != ' '
    ensures GetStringFrom(name, before + name + "=" + v + " " + after) == Success(Some(v))
  {
    var line := before + name + "=" + v + " " + after;
    var start := |before| + |name| + 1;
    assert line[start..start + |v|] == v;
    assert line[start + |v|] == ' ';
    if v == [] {
      assert line[start] == ' ';
    } else {
      assert line[start] == v[0];
    }
    FieldValueUpTo(line, start, start + |v|);
  }

  /** A quoted value is read back without its quotes. */
  lemma GetStringFromQuoted(name: string, before: string, v: string, after: string)
    requires IndexOfFrom(before + name + "=" + "\"" + v + "\"" + after, name + "=", 0) == |before|
    requires forall k :: 0 <= k < |v| ==> v[k] != '"'
    ensures GetStringFrom(name, before + name + "=" + "\"" + v + "\"" + after) == Success(Some(v))
  {
    var line := before + name + "=" + "\"" + v + "\"" + after;
    var start := |before| + |name| + 1;
    assert line[start] == '"';
    assert line[start + 1..start + 1 + |v|] == v;
    assert line[start + 1 + |v|] == '"';
    FieldValueUpTo(line, start, start + 1 + |v|);
  }

  /** An integer written in decimal after its key is read back. */
  lemma GetIntFromWritten(name: string, before: string, n: int, after: string)
    requires InInt32(n)
    requires IndexOfFrom(before + name + "=" + FormatInt32(n) + " " + after, name + "=", 0) == |before|
    ensures GetIntFrom(name, before + name + "=" + FormatInt32(n) + " " + after) == Success(n)
  {
    var v := FormatInt32(n);
    assert forall k :: 0 <= k < |v| ==> v[k] != ' ' by {
      if n < 0 {
        assert v == "-" + Digits(-n);
        forall k | 0 < k < |v| ensures v[k] != ' ' { assert v[k] == Digits(-n)[k - 1]; }
      }
    }
    GetStringFromPlain(name, before, v, after);
    ParseFormatRoundTrip(n);
  }

  /** A field value that `int.TryParse` rejects reads as 0, and one it
      accepts as its value. */
  lemma GetIntFromValue(name: string, line: string, v: string)
    requires GetStringFrom(name, line) == Success(Some(v))
    ensures ParseInt32(v).None? ==> GetIntFrom(name, line) == Success(0)
    ensures ParseInt32(v).Some? ==> GetIntFrom(name, line) == Success(ParseInt32(v).value)
  {
  }

  /** A plain field value that `int.TryParse` rejects reads as 0, and one
      it accepts, a `+` sign included, as its value. */
  lemma GetIntFromPlain(name: string, before: string, v: string, after: string)
    requires IndexOfFrom(before + name + "=" + v + " " + after, name + "=", 0) == |before|
    requires v == [] || v[0] != '"'
    requires forall k :: 0 <= k < |v| ==> v[k] != ' '
    ensures ParseInt32(v).None? ==> GetIntFrom(name, before + name + "=" + v + " " + after) == Success(0)
    ensures ParseInt32(v).Some? ==> GetIntFrom(name, before + name + "=" + v + " " + after) == Success(ParseInt32(v).value)
  {
    GetStringFromPlain(name, before, v, after);
    GetIntFromValue(name, before + name + "=" + v + " " + after, v);
  }

  // --------------------------------------------------------- line selection

  /** `GetLines(name, text)`: the lines that start with `name`, in order. */
  function GetLines(name: string, text: seq<string>): (r: seq<string>)
    ensures |r| <= |text|
    ensures forall l :: l in r ==> l in text && StartsWith(l, name)
    ensures forall l :: l in text && StartsWith(l, name) ==> l in r
  {
    if text == [] then []
    else
      assert text == [text[0]] + text[1..];
      (if StartsWith(text[0], name) then [text[0]] else []) + GetLines(name, text[1..])
  }

  /** Selection keeps file order: it distributes over concatenation. */
  lemma {:induction false} GetLinesAppend(name: string, a: seq<string>, b: seq<string>)
    ensures GetLines(name, a + b) == GetLines(name, a) + GetLines(name, b)
  {
    if a == [] {
      assert a + b == b;
    } else {
      assert (a + b)[1..] == a[1..] + b;
      GetLinesAppend(name, a[1..], b);
    }
  }

  /** `GetInfo`'s local `GetLine(name)`: the first line starting with `name`,
      or `" "` when there is none. */
  function GetLine(name: string, text: seq<string>): (r: string)
    ensures r == " " || (r in text && StartsWith(r, name))
    ensures (forall l :: l in text ==> !StartsWith(l, name)) ==> r == " "
    ensures text != [] && StartsWith(text[0], name) ==> r == text[0]
    ensures (exists i :: 0 <= i < |text| && StartsWith(text[i], name)) ==>
      exists i :: 0 <= i < |text| && r == text[i] && StartsWith(r, name) &&
        forall j :: 0 <= j < i ==> !StartsWith(text[j], name)
  {
    if text == [] then " "
    else if StartsWith(text[0], name) then text[0]
    else GetLine(name, text[1..])
  }

  /** A line with no `=` holds no occurrence of `name=`. */
  lemma NoKeyWithoutEquals(name: string, line: string, j: int)
    requires forall k :: 0 <= k < |line| ==> line[k] != '='
    ensures !OccursAt(line, name + "=", j)
  {
    var t := name + "=";
    if 0 <= j && j + |t| <= |line| {
      assert line[j..j + |t|][|name|] == line[j + |name|] != t[|name|];
    }
  }

  /** A line with no `=` holds no field, so every field of it reads as
      missing: this is what a missing block (replaced by `" "`) gives. */
  lemma NoFieldsWithoutEquals(name: string, line: string)
    requires forall k :: 0 <= k < |line| ==> line[k] != '='
    ensures GetStringFrom(name, line) == Success(None)
    ensures GetIntFrom(name, line) == Success(0)
  {
    NoKeyWithoutEquals(name, line, IndexOfFrom(line, name + "=", 0));
  }

  // ------------------------------------------------------------ font header

  /** The fields `GetInfo` reads from the `info` line. */
  datatype InfoFields = InfoFields(Name: string, Size: int, Bold: bool, Italic: bool, Smooth: bool)

  /** The fields `GetInfo` reads from the `common` line. */
  datatype CommonFields = CommonFields(Width: int, Height: int, PageCount: int, LineHeight: int, Base: int)

  function InfoFieldsOf(info: string): Result<InfoFields, FontError>
  {
    var face :- GetStringFrom("face", info);
    var size :- GetIntFrom("size", info);
    var bold :- GetBoolFrom("bold", info);
    var italic :- GetBoolFrom("italic", info);
    var smooth :- GetBoolFrom("smooth", info);
    Success(InfoFields(face.GetOr("Untitled"), size, bold, italic, smooth))
  }

  function CommonFieldsOf(common: string): Result<CommonFields, FontError>
  {
    var width :- GetIntFrom("scaleW", common);
    var height :- GetIntFrom("scaleH", common);
    var pages :- GetIntFrom("pages", common);
    var lineHeight :- GetIntFrom("lineHeight", common);
    var base :- GetIntFrom("base", common);
    Success(CommonFields(width, height, pages, lineHeight, base))
  }

  /** The header fields `GetInfo` reads before its page loop, in the order
      it reads them; `PagePaths` is still empty. */
  function HeaderOf(text: seq<string>): Result<BmFontInfo, FontError>
  {
    var info :- InfoFieldsOf(GetLine("info", text));
    var common :- CommonFieldsOf(GetLine("common", text));
    var glyphs :- GetIntFrom("count", GetLine("chars", text));
    var kernings :- GetIntFrom("count", GetLine("kernings", text));
    Success(BmFontInfo(info.Name, info.Size, info.Bold, info.Italic, info.Smooth,
                       common.Width, common.Height, common.PageCount, common.LineHeight, common.Base,
                       glyphs, kernings, []))
  }

  /** The `id` and `file` of one page line, when both read. */
  function PageEntry(line: string): Option<(int, string)>
  {
    match GetIntFrom("id", line)
    case Failure(_) => None
    case Success(id) =>
      match GetStringFrom("file", line)
      case Success(Some(file)) => Some((id, file))
      case _ => None
  }

  /** The page lines, each read as `PageEntry` reads it. */
  function PageEntries(lines: seq<string>): (r: seq<Option<(int, string)>>)
    ensures |r| == |lines|
  {
    if lines == [] then [] else [PageEntry(lines[0])] + PageEntries(lines[1..])
  }

  lemma {:induction false} PageEntriesAt(lines: seq<string>, i: nat)
    requires i < |lines|
    ensures PageEntries(lines)[i] == PageEntry(lines[i])
  {
    if i > 0 {
      PageEntriesAt(lines[1..], i - 1);
    }
  }

  /** One pass of the page loop's body, up to the store: the `id` and
      `file` of page line `i`. */
  method ReadPageEntry(lines: seq<string>, i: nat) returns (entry: Option<(int, string)>)
    requires i < |lines|
    ensures entry == PageEntries(lines)[i]
  {
    PageEntriesAt(lines, i);
    var id := GetIntFrom("id", lines[i]);
    if id.Failure? {
      return None;
    }
    var file := GetStringFrom("file", lines[i]);
    if file.Failure? || file.value.None? {
      return None;
    }
    return Some((id.value, file.value.value));
  }

  /** One pass of the page loop: store the `file` of page entry `i` at the
      index given by its `id`. Every failure inside the loop's `try` becomes
      the one `ArgumentException`. */
  function PlacePage(paths: seq<Option<string>>, entries: seq<Option<(int, string)>>, i: nat): (r: Result<seq<Option<string>>, FontError>)
    ensures r.Success? <==> i < |entries| && entries[i].Some? && 0 <= entries[i].value.0 < |paths|
    ensures r.Success? ==> r.value == paths[entries[i].value.0 := Some(entries[i].value.1)]
    ensures r.Failure? ==> r.error == MalformedPageTable
  {
    if i >= |entries| then Failure(MalformedPageTable)
    else
      match entries[i]
      case Some((id, file)) =>
        if 0 <= id < |paths| then Success(paths[id := Some(file)]) else Failure(MalformedPageTable)
      case None => Failure(MalformedPageTable)
  }

  /** The page table after the first `k` passes of the loop over `count`
      pages. */
  function PlacePages(entries: seq<Option<(int, string)>>, count: nat, k: nat): (r: Result<seq<Option<string>>, FontError>)
    ensures r.Success? ==> |r.value| == count
  {
    if k == 0 then Success(seq(count, _ => None))
    else
      var paths :- PlacePages(entries, count, k - 1);
      PlacePage(paths, entries, k - 1)
  }

  /** The page table of a description: a negative count fails at the array
      allocation. */
  function PagePathsOf(text: seq<string>, count: int): Result<seq<Option<string>>, FontError>
  {
    if count < 0 then Failure(MalformedPageTable)
    else PlacePages(PageEntries(GetLines("page", text)), count, count)
  }

  /** What `GetInfo` returns. */
  function InfoOf(text: seq<string>): Result<BmFontInfo, FontError>
  {
    var header :- HeaderOf(text);
    var paths :- PagePathsOf(text, header.PageCount);
    Success(header.(PagePaths := paths))
  }

  /** `GetInfo`: the header fields, then the page table. */
  method GetInfo(text: seq<string>) returns (r: Result<BmFontInfo, FontError>)
    ensures r == InfoOf(text)
  {
    var header := HeaderOf(text);
    if header.Failure? {
      return Failure(header.error);
    }
    var paths := ReadPagePaths(text, header.value.PageCount);
    if paths.Failure? {
      return Failure(paths.error);
    }
    return Success(header.value.(PagePaths := paths.value));
  }

  /** The `try` block of `GetInfo`: allocate `count` empty slots, then
      place the path of each of the first `count` page lines. */
  method ReadPagePaths(text: seq<string>, count: int) returns (r: Result<seq<Option<string>>, FontError>)
    ensures r == PagePathsOf(text, count)
  {
    if count < 0 {
      return Failure(MalformedPageTable);
    }
    var paths: seq<Option<string>> := seq(count, _ => None);
    var pageLines := GetLines("page", text);
    ghost var entries := PageEntries(pageLines);
    for i := 0 to count
      invariant PlacePages(entries, count, i) == Success(paths)
    {
      if i >= |pageLines| {
        PlaceFailureSticks(entries, count, i + 1);
        return Failure(MalformedPageTable);
      }
      var entry := ReadPageEntry(pageLines, i);
      if entry.None? || !(0 <= entry.value.0 < |paths|) {
        PlaceFailureSticks(entries, count, i + 1);
        return Failure(MalformedPageTable);
      }
      paths := paths[entry.value.0 := Some(entry.value.1)];
    }
    return Success(paths);
  }

  /** Once a pass fails, the whole page loop fails. */
  lemma {:induction false} PlaceFailureSticks(entries: seq<Option<(int, string)>>, count: nat, k: nat)
    requires k <= count
    requires PlacePages(entries, count, k).Failure?
    ensures PlacePages(entries, count, count) == Failure(MalformedPageTable)
    decreases count - k
  {
    if k < count {
      PlaceFailureSticks(entries, count, k + 1);
    } else {
      PlaceFailsMalformed(entries, count, k);
    }
  }

  lemma {:induction false} PlaceFailsMalformed(entries: seq<Option<(int, string)>>, count: nat, k: nat)
    requires PlacePages(entries, count, k).Failure?
    ensures PlacePages(entries, count, k) == Failure(MalformedPageTable)
  {
    if k > 0 && PlacePages(entries, count, k - 1).Failure? {
      PlaceFailsMalformed(entries, count, k - 1);
    }
  }

  /** Fewer page lines than pages is a malformed page table. */
  lemma TooFewPageLines(text: seq<string>, count: int)
    requires 0 <= |GetLines("page", text)| < count
    ensures PagePathsOf(text, count) == Failure(MalformedPageTable)
  {
    var lines := PageEntries(GetLines("page", text));
    var k := |lines| + 1;
    if PlacePages(lines, count, k - 1).Failure? {
      PlaceFailsMalformed(lines, count, k - 1);
    }
    assert PlacePages(lines, count, k).Failure?;
    PlaceFailureSticks(lines, count, k);
  }

  /** Page line `i` is the last of the first `k` to name its slot. */
  predicate LastToName(entries: seq<Option<(int, string)>>, k: nat, i: nat)
  {
    i < k <= |entries| && entries[i].Some? &&
    forall i' :: i < i' < k && entries[i'].Some? ==> entries[i'].value.0 != entries[i].value.0
  }

  /** After `k` successful passes, each of the first `k` page lines gave a
      valid page index; a slot holds a path exactly when one of those lines
      names it, and then it holds the file of the last line that does. */
  /** One more page line: the slots that are filled are the ones named so far. */
  lemma NamedSlotsStep(entries: seq<Option<(int, string)>>, count: nat, k: nat, prev: seq<Option<string>>,
                       paths: seq<Option<string>>, id: int, file: string)
    requires 0 < k <= |entries| && entries[k - 1] == Some((id, file)) && 0 <= id < count == |prev|
    requires paths == prev[id := Some(file)]
    requires forall j :: 0 <= j < count ==>
      (prev[j].Some? <==> exists i :: 0 <= i < k - 1 && entries[i].Some? && entries[i].value.0 == j)
    ensures forall j :: 0 <= j < count ==>
      (paths[j].Some? <==> exists i :: 0 <= i < k && entries[i].Some? && entries[i].value.0 == j)
  {
    forall j | 0 <= j < count
      ensures paths[j].Some? <==> exists i :: 0 <= i < k && entries[i].Some? && entries[i].value.0 == j
    {
      if j == id {
        assert entries[k - 1].Some? && entries[k - 1].value.0 == j;
      } else if exists i :: 0 <= i < k && entries[i].Some? && entries[i].value.0 == j {
        var i :| 0 <= i < k && entries[i].Some? && entries[i].value.0 == j;
        assert i < k - 1;
      }
    }
  }

  /** One more page line: each line that is still the last to name its
      slot keeps its file there, and the new line's file is in its slot. */
  lemma LastNamesStep(entries: seq<Option<(int, string)>>, k: nat, prev: seq<Option<string>>,
                      paths: seq<Option<string>>, id: int, file: string)
    requires 0 < k <= |entries| && entries[k - 1] == Some((id, file)) && 0 <= id < |prev|
    requires paths == prev[id := Some(file)]
    requires forall i :: 0 <= i < k - 1 ==> entries[i].Some? && 0 <= entries[i].value.0 < |prev|
    requires forall i :: 0 <= i && LastToName(entries, k - 1, i) ==> prev[entries[i].value.0] == Some(entries[i].value.1)
    ensures forall i :: 0 <= i && LastToName(entries, k, i) ==> paths[entries[i].value.0] == Some(entries[i].value.1)
  {
    forall i | 0 <= i && LastToName(entries, k, i)
      ensures paths[entries[i].value.0] == Some(entries[i].value.1)
    {
      if i < k - 1 {
        assert entries[k - 1].value.0 != entries[i].value.0;
        assert LastToName(entries, k - 1, i);
      }
    }
  }

  lemma {:induction false} PlacedSlotsFilled(entries: seq<Option<(int, string)>>, count: nat, k: nat)
    requires PlacePages(entries, count, k).Success?
    ensures k <= |entries|
    ensures forall i :: 0 <= i < k ==> entries[i].Some? && 0 <= entries[i].value.0 < count
    ensures forall j :: 0 <= j < count ==>
      (PlacePages(entries, count, k).value[j].Some? <==>
         exists i :: 0 <= i < k && entries[i].Some? && entries[i].value.0 == j)
    ensures forall i :: 0 <= i && LastToName(entries, k, i) ==>
      PlacePages(entries, count, k).value[entries[i].value.0] == Some(entries[i].value.1)
  {
    if k > 0 {
      PlacedSlotsFilled(entries, count, k - 1);
      var prev := PlacePages(entries, count, k - 1).value;
      var (id, file) := entries[k - 1].value;
      var paths := PlacePages(entries, count, k).value;
      assert paths == prev[id := Some(file)];
      NamedSlotsStep(entries, count, k, prev, paths, id, file);
      LastNamesStep(entries, k, prev, paths, id, file);
    }
  }

  /** A font with a single page gets the file of its first page line as
      its one page path, and `ParsePages` accepts it. */
  lemma SinglePageIsPlaced(text: seq<string>)
    requires InfoOf(text).Success? && InfoOf(text).value.PageCount == 1
    ensures GetLines("page", text) != [] && PageEntry(GetLines("page", text)[0]).Some?
    ensures PageEntry(GetLines("page", text)[0]).value.0 == 0
    ensures InfoOf(text).value.PagePaths == [Some(PageEntry(GetLines("page", text)[0]).value.1)]
    ensures ParsePages(InfoOf(text).value) == Success(PageEntry(GetLines("page", text)[0]).value.1)
  {
    var entries := PageEntries(GetLines("page", text));
    PlacedSlotsFilled(entries, 1, 1);
    PageEntriesAt(GetLines("page", text), 0);
    assert LastToName(entries, 1, 0);
  }

  /** The blank line that stands in for a missing block holds no field. */
  lemma BlankHasNoFields(name: string)
    ensures GetStringFrom(name, " ") == Success(None) && GetIntFrom(name, " ") == Success(0)
  {
    NoFieldsWithoutEquals(name, " ");
  }

  /** A font without an `info` line is called "Untitled", with size zero and
      no style flags. */
  lemma MissingInfo(text: seq<string>)
    requires forall l :: l in text ==> !StartsWith(l, "info")
    ensures InfoFieldsOf(GetLine("info", text)) == Success(InfoFields("Untitled", 0, false, false, false))
  {
    BlankHasNoFields("face");
    BlankHasNoFields("size");
    BlankHasNoFields("bold");
    BlankHasNoFields("italic");
    BlankHasNoFields("smooth");
  }

  /** A font without a `common` line has every `common` field zero, so no
      pages. */
  lemma MissingCommon(text: seq<string>)
    requires forall l :: l in text ==> !StartsWith(l, "common")
    ensures CommonFieldsOf(GetLine("common", text)) == Success(CommonFields(0, 0, 0, 0, 0))
  {
    BlankHasNoFields("scaleW");
    BlankHasNoFields("scaleH");
    BlankHasNoFields("pages");
    BlankHasNoFields("lineHeight");
    BlankHasNoFields("base");
  }

  /** A font without a `kernings` line has no kernings. */
  lemma MissingKernings(text: seq<string>)
    requires HeaderOf(text).Success?
    requires forall l :: l in text ==> !StartsWith(l, "kernings")
    ensures HeaderOf(text).value.KerningCount == 0
  {
    assert GetLine("kernings", text) == " ";
    BlankHasNoFields("count");
    assert HeaderOf(text).value.KerningCount == GetIntFrom("count", " ").value;
  }

  // ------------------------------------------------------------------ pages

  /** `ParsePages`, up to the texture load: only a font with exactly one page
      is accepted, and the page path it loads is the first entry of the page
      table. */
  function ParsePages(info: BmFontInfo): (r: Result<string, FontError>)
    ensures r.Success? ==> info.PageCount == 1 && |info.PagePaths| > 0 && info.PagePaths[0] == Some(r.value)
    ensures info.PageCount != 1 ==> r == Failure(OnlyOnePageSupported)
  {
    if info.PageCount != 1 then Failure(OnlyOnePageSupported)
    else if |info.PagePaths| == 0 then Failure(IndexOutOfRange)
    else match info.PagePaths[0]
      case Some(path) => Success(path)
      case None => Failure(NullPagePath)
  }

  // --------------------------------------------------------------- kernings

  function PairOf(k: Kerning): KerningPair
  {
    KerningPair(k.FirstChar, k.SecondChar)
  }

  /** One kerning line: `first` and `second` cut to `char`, `amount` as read. */
  function KerningOf(line: string): Result<Kerning, FontError>
  {
    var first :- GetIntFrom("first", line);
    var second :- GetIntFrom("second", line);
    var amount :- GetIntFrom("amount", line);
    Success(Kerning(ToChar16(first), ToChar16(second), amount))
  }

  /** The body of `ParseKernings`' loop up to the `Add`: kerning line `i`
      read field by field. */
  method ReadKerning(lines: seq<string>, i: nat) returns (kerning: Result<Kerning, FontError>)
    requires i < |lines|
    ensures kerning == KerningOf(lines[i])
  {
    var first := GetIntFrom("first", lines[i]);
    if first.Failure? {
      return Failure(first.error);
    }
    var second := GetIntFrom("second", lines[i]);
    if second.Failure? {
      return Failure(second.error);
    }
    var amount := GetIntFrom("amount", lines[i]);
    if amount.Failure? {
      return Failure(amount.error);
    }
    return Success(Kerning(ToChar16(first.value), ToChar16(second.value), amount.value));
  }

  /** The kerning lines, each read as `KerningOf` reads it. */
  function KerningEntries(lines: seq<string>): (r: seq<Result<Kerning, FontError>>)
    ensures |r| == |lines| && forall i :: 0 <= i < |lines| ==> r[i] == KerningOf(lines[i])
  {
    seq(|lines|, i requires 0 <= i < |lines| => KerningOf(lines[i]))
  }

  /** The kerning table after the first `k` passes of `ParseKernings`' loop,
      over the kerning lines as read. */
  function KerningTable(entries: seq<Result<Kerning, FontError>>, k: nat): Result<map<KerningPair, Kerning>, FontError>
    decreases k, 1
  {
    if k == 0 then Success(map[]) else KerningTableNext(entries, k)
  }

  /** Pass `k` of the loop, on the table of the passes before it. Kept a
      function of its own in the same recursion so that the verifier unfolds
      one pass at a time. */
  function KerningTableNext(entries: seq<Result<Kerning, FontError>>, k: nat): Result<map<KerningPair, Kerning>, FontError>
    requires k > 0
    decreases k, 0
  {
    var table :- KerningTable(entries, k - 1);
    if k - 1 >= |entries| then Failure(IndexOutOfRange)
    else
      var kerning :- entries[k - 1];
      if PairOf(kerning) in table then Failure(DuplicateKerning)
      else Success(table[PairOf(kerning) := kerning])
  }

  lemma KerningTableStep(entries: seq<Result<Kerning, FontError>>, k: nat)
    requires k > 0
    ensures KerningTable(entries, k) == KerningTableNext(entries, k)
  {
  }

  /** `KerningTable` as the loops state it: the verifier unfolds the
      recursion from here one pass at a time. */
  function KerningsAfter(lines: seq<string>, k: nat): Result<map<KerningPair, Kerning>, FontError>
  {
    KerningTable(KerningEntries(lines), k)
  }

  /** What `ParseKernings` stores: the table of the first `count` lines that
      start with `"kerning "`. */
  function KerningsOf(text: seq<string>, count: int): Result<map<KerningPair, Kerning>, FontError>
  {
    KerningsOfLines(GetLines("kerning ", text), count)
  }

  /** The table of the first `count` kerning lines; none for a count that
      is not positive. */
  function KerningsOfLines(lines: seq<string>, count: int): Result<map<KerningPair, Kerning>, FontError>
  {
    if count <= 0 then Success(map[]) else KerningTable(KerningEntries(lines), count)
  }

  /** `ParseKernings`. */
  method ParseKernings(text: seq<string>, info: BmFontInfo) returns (r: Result<map<KerningPair, Kerning>, FontError>)
    ensures r == KerningsOf(text, info.KerningCount)
  {
    var kerningLines := GetLines("kerning ", text);
    r := AddKernings(kerningLines, info.KerningCount);
  }

  /** `ParseKernings`' loop over the kerning lines, `count` times. */
  method AddKernings(lines: seq<string>, count: int) returns (r: Result<map<KerningPair, Kerning>, FontError>)
    ensures r == KerningsOfLines(lines, count)
  {
    var kernings: map<KerningPair, Kerning> := map[];
    var i := 0;
    while i < count
      invariant 0 <= i && (count > 0 ==> i <= count)
      invariant count <= 0 ==> i == 0
      invariant KerningsAfter(lines, i) == Success(kernings)
    {
      var next := AddKerning(lines, i, kernings, count);
      if next.Failure? {
        return Failure(next.error);
      }
      kernings := next.value;
      i := i + 1;
    }
    return Success(kernings);
  }

  /** One pass of `ParseKernings`' loop: kerning line `i` read and added to
      the table of the lines before it. */
  method AddKerning(lines: seq<string>, i: nat, kernings: map<KerningPair, Kerning>, ghost count: nat)
    returns (r: Result<map<KerningPair, Kerning>, FontError>)
    requires i < count
    requires KerningsAfter(lines, i) == Success(kernings)
    ensures KerningsAfter(lines, i + 1) == r
    ensures r.Failure? ==> KerningsAfter(lines, count) == r
  {
    KerningTableStep(KerningEntries(lines), i + 1);
    if i >= |lines| {
      r := Failure(IndexOutOfRange);
    } else {
      var kerning := ReadKerning(lines, i);
      if kerning.Failure? {
        r := Failure(kerning.error);
      } else {
        var pair := KerningPair(kerning.value.FirstChar, kerning.value.SecondChar);
        if pair in kernings {
          r := Failure(DuplicateKerning);
        } else {
          r := Success(kernings[pair := kerning.value]);
        }
      }
    }
    if r.Failure? {
      KerningFailureSticks(KerningEntries(lines), i + 1, count);
    }
  }

  /** A failed pass ends `ParseKernings` with that failure. */
  lemma {:induction false} KerningFailureSticks(entries: seq<Result<Kerning, FontError>>, k: nat, count: nat)
    requires k <= count
    requires KerningTable(entries, k).Failure?
    ensures KerningTable(entries, count) == KerningTable(entries, k)
    decreases count - k
  {
    if k < count {
      KerningFailureSticks(entries, k + 1, count);
    }
  }

  /** A successful table holds one entry per line, keyed by its
      (first, second) pair: no two of the lines share a pair, and there were
      at least `k` lines. */
  lemma {:induction false} KerningTableEntries(entries: seq<Result<Kerning, FontError>>, k: nat)
    requires KerningTable(entries, k).Success?
    ensures k <= |entries|
    ensures |KerningTable(entries, k).value| == k
    ensures forall i :: 0 <= i < k ==>
      && entries[i].Success?
      && PairOf(entries[i].value) in KerningTable(entries, k).value
      && KerningTable(entries, k).value[PairOf(entries[i].value)] == entries[i].value
    ensures forall i, j :: 0 <= i < j < k ==> PairOf(entries[i].value) != PairOf(entries[j].value)
  {
    if k > 0 {
      KerningTableEntries(entries, k - 1);
      var table := KerningTable(entries, k - 1).value;
      var kerning := entries[k - 1].value;
      assert PairOf(kerning) !in table;
      assert KerningTable(entries, k).value == table[PairOf(kerning) := kerning];
    }
  }

  /** What `ParseKernings` stores when it succeeds: nothing for a count that
      is not positive; otherwise one entry per each of the first `count`
      kerning lines, keyed by that line's (first, second) pair and holding
      what the line reads as, with no pair repeated. */
  lemma KerningsFromLines(lines: seq<string>, count: int)
    requires KerningsOfLines(lines, count).Success?
    ensures count <= 0 ==> KerningsOfLines(lines, count).value == map[]
    ensures count > 0 ==> count <= |lines| && |KerningsOfLines(lines, count).value| == count
    ensures forall i :: 0 <= i < count ==>
      && KerningOf(lines[i]).Success?
      && PairOf(KerningOf(lines[i]).value) in KerningsOfLines(lines, count).value
      && KerningsOfLines(lines, count).value[PairOf(KerningOf(lines[i]).value)] == KerningOf(lines[i]).value
    ensures forall i, j :: 0 <= i < j < count ==> PairOf(KerningOf(lines[i]).value) != PairOf(KerningOf(lines[j]).value)
  {
    if count > 0 {
      KerningTableEntries(KerningEntries(lines), count);
    }
  }

  /** Fewer kerning lines than the declared count makes `ParseKernings` fail. */
  lemma TooFewKerningLines(text: seq<string>, count: int)
    requires 0 <= |GetLines("kerning ", text)| < count
    ensures KerningsOf(text, count).Failure?
  {
    if KerningsOf(text, count).Success? {
      KerningTableEntries(KerningEntries(GetLines("kerning ", text)), count);
    }
  }
}
