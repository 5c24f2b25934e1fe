/**
 The secrets-file loader: the text of the file is cut into lines at "\n",
 every line of the shape `^([A-Z_]+)=(.+)$` contributes the binding
 key -> trimmed value, and later lines overwrite earlier ones. A file that
 cannot be read yields no bindings at all.
 */
module Secrets {
  import opened Wrappers
  import opened Text

  /** One `KEY=value` line, with the value already trimmed. */
  datatype Binding = Binding(key: string, value: string)

  /** The character class `[A-Z_]` of a key. */
  predicate IsKeyChar(c: char) {
    'A' <= c <= 'Z' || c == '_'
  }

  /** The characters a regular-expression `.` does not match. */
  predicate IsLineTerminator(c: char) {
    c == '\n' || c == '\r' || c == '\U{2028}' || c == '\U{2029}'
  }

  predicate NoLineTerminator(s: string) {
    forall i :: 0 <= i < |s| ==> !IsLineTerminator(s[i])
  }

  /**
   The regular expression `^([A-Z_]+)=(.+)$` (no flags) matches `line` with
   its `=` at index `k`: one or more key characters, the `=`, then at least
   one character and none of them a line terminator up to the end of input.
   */
  predicate MatchesAt(line: string, k: int) {
    && 0 < k && k + 1 < |line|
    && (forall i :: 0 <= i < k ==> IsKeyChar(line[i]))
    && line[k] == '='
    && (forall j :: k < j < |line| ==> !IsLineTerminator(line[j]))
  }

  /** The number of key characters at the start of `line`. */
  function KeyLength(line: string): (n: nat)
    ensures n <= |line|
    ensures forall i :: 0 <= i < n ==> IsKeyChar(line[i])
    ensures n < |line| ==> !IsKeyChar(line[n])
  {
    if |line| > 0 && IsKeyChar(line[0]) then
      var n := 1 + KeyLength(line[1..]);
      assert forall i :: 1 <= i < n ==> line[i] == line[1..][i - 1];
      n
    else 0
  }

  /** The binding one line contributes: the key and the trimmed value when the line has the `KEY=value` shape. */
  function ParseLine(line: string): Option<Binding>
  {
    var k := KeyLength(line);
    if 0 < k && k + 1 < |line| && line[k] == '=' && NoLineTerminator(line[k + 1..]) then
      Some(Binding(line[..k], Trim(line[k + 1..])))
    else
      None
  }

  /** The regular expression can only match with its `=` right after the leading key characters. */
  lemma MatchPosition(line: string, k: int)
    requires MatchesAt(line, k)
    ensures k == KeyLength(line)
  {
    assert !IsKeyChar(line[k]);
  }

  /** The key characters followed by a matching tail are a match. */
  lemma MatchAtKeyLength(line: string)
    ensures ParseLine(line).Some? <==> MatchesAt(line, KeyLength(line))
  {
    var k := KeyLength(line);
    if 0 < k && k + 1 < |line| && line[k] == '=' {
      var raw := line[k + 1..];
      if NoLineTerminator(raw) {
        forall j | k < j < |line| ensures !IsLineTerminator(line[j]) {
          assert line[j] == raw[j - k - 1];
        }
      } else {
        var i :| 0 <= i < |raw| && IsLineTerminator(raw[i]);
        assert raw[i] == line[k + 1 + i];
      }
    }
  }

  /**
   A line contributes a binding exactly when the regular expression matches
   it; the key is then the first capture group and the value the trimmed
   second one.
   */
  lemma ParseLineMatches(line: string)
    ensures ParseLine(line).Some? <==> exists k :: MatchesAt(line, k)
    ensures forall k :: MatchesAt(line, k) ==> ParseLine(line) == Some(Binding(line[..k], Trim(line[k + 1..])))
  {
    MatchAtKeyLength(line);
    forall k | MatchesAt(line, k) ensures k == KeyLength(line) {
      MatchPosition(line, k);
    }
  }

  /** The regular expression can match a line at one `=` only: the first one. */
  lemma {:induction false} MatchAtFirstEquals(line: string, k: int)
    requires MatchesAt(line, k)
    ensures '=' !in line[..k]
    ensures forall j :: MatchesAt(line, j) ==> j == k
  {
    forall j | MatchesAt(line, j) ensures j == k {
      assert !IsKeyChar(line[j]) && !IsKeyChar(line[k]);
    }
    assert forall i :: 0 <= i < k ==> line[..k][i] == line[i] && IsKeyChar(line[i]);
  }

  /** A parsed line that binds `key`. */
  predicate Binds(p: Option<Binding>, key: string) {
    p.Some? && p.value.key == key
  }

  /**
   The map built from parsed lines, folded from the first line to the last:
   a binding is stored under its key, replacing whatever was there, and a
   line that did not parse changes nothing.
   */
  function Collect(parsed: seq<Option<Binding>>): map<string, string>
  {
    if |parsed| == 0 then map[]
    else
      var m := Collect(parsed[..|parsed| - 1]);
      match parsed[|parsed| - 1]
      case Some(b) => m[b.key := b.value]
      case None => m
  }

  /** The parse of every line, in order. */
  function ParseAll(lines: seq<string>): (parsed: seq<Option<Binding>>)
    ensures |parsed| == |lines|
    ensures forall i :: 0 <= i < |lines| ==> parsed[i] == ParseLine(lines[i])
  {
    seq(|lines|, i requires 0 <= i < |lines| => ParseLine(lines[i]))
  }

  /** The secrets a sequence of lines defines. */
  function ParseLines(lines: seq<string>): map<string, string>
  {
    Collect(ParseAll(lines))
  }

  /**
   A binding as the loader produces it: the key is a non-empty run of key
   characters, and the value is trimmed and free of line terminators.
   */
  predicate WellFormedBinding(b: Binding) {
    && |b.key| > 0
    && (forall i :: 0 <= i < |b.key| ==> IsKeyChar(b.key[i]))
    && NoLineTerminator(b.value)
    && Trim(b.value) == b.value
  }

  /** Every entry of `secrets` is a well-formed binding. */
  predicate WellFormed(secrets: map<string, string>) {
    forall key :: key in secrets ==> WellFormedBinding(Binding(key, secrets[key]))
  }

  /** Trimming never introduces a line terminator. */
  lemma TrimNoLineTerminator(raw: string)
    requires NoLineTerminator(raw)
    ensures NoLineTerminator(Trim(raw))
  {
    var v := Trim(raw);
    var n := LeadingWhitespace(raw);
    forall i | 0 <= i < |v| ensures !IsLineTerminator(v[i]) {
      assert v[i] == raw[n + i];
    }
  }

  /** The binding a line contributes is well formed. */
  lemma ParsedBindingWellFormed(line: string)
    requires ParseLine(line).Some?
    ensures WellFormedBinding(ParseLine(line).value)
  {
    var k := KeyLength(line);
    var raw := line[k + 1..];
    var b := ParseLine(line).value;
    assert b == Binding(line[..k], Trim(raw));
    TrimNoLineTerminator(raw);
    TrimIdempotent(raw);
    forall i | 0 <= i < k ensures IsKeyChar(b.key[i]) {
      assert b.key[i] == line[i];
    }
  }

  /** Collecting well-formed bindings yields a well-formed map. */
  lemma {:induction false} CollectWellFormed(parsed: seq<Option<Binding>>)
    requires forall i :: 0 <= i < |parsed| && parsed[i].Some? ==> WellFormedBinding(parsed[i].value)
    ensures WellFormed(Collect(parsed))
  {
    if |parsed| > 0 {
      var init := parsed[..|parsed| - 1];
      assert forall i :: 0 <= i < |init| ==> init[i] == parsed[i];
      CollectWellFormed(init);
      var m := Collect(parsed);
      forall key | key in m ensures WellFormedBinding(Binding(key, m[key])) {
        if Binds(parsed[|parsed| - 1], key) {
          assert Binding(key, m[key]) == parsed[|parsed| - 1].value;
        } else {
          assert key in Collect(init) && m[key] == Collect(init)[key];
        }
      }
    }
  }

  /** Parsing any lines yields a well-formed map. */
  lemma ParseLinesWellFormed(lines: seq<string>)
    ensures WellFormed(ParseLines(lines))
  {
    var parsed := ParseAll(lines);
    forall i | 0 <= i < |parsed| && parsed[i].Some? ensures WellFormedBinding(parsed[i].value) {
      ParsedBindingWellFormed(lines[i]);
    }
    CollectWellFormed(parsed);
  }

  /** A key is stored exactly when some parsed line binds it. */
  lemma {:induction false} StoredIffSomeBinds(parsed: seq<Option<Binding>>, key: string)
    ensures key in Collect(parsed) <==> exists i :: 0 <= i < |parsed| && Binds(parsed[i], key)
  {
    if |parsed| > 0 {
      var init := parsed[..|parsed| - 1];
      StoredIffSomeBinds(init, key);
      assert forall i :: 0 <= i < |init| ==> init[i] == parsed[i];
    }
  }

  /** Parsed line `i` binds `key` and no later one does. */
  predicate LastBinder(parsed: seq<Option<Binding>>, i: int, key: string) {
    && 0 <= i < |parsed|
    && Binds(parsed[i], key)
    && forall j :: i < j < |parsed| ==> !Binds(parsed[j], key)
  }

  /** The last line binding a key decides its value: a later duplicate overwrites an earlier one. */
  lemma {:induction false} LastBindingWins(parsed: seq<Option<Binding>>, i: int, key: string)
    requires LastBinder(parsed, i, key)
    ensures key in Collect(parsed) && Collect(parsed)[key] == parsed[i].value.value
  {
    if i < |parsed| - 1 {
      var init := parsed[..|parsed| - 1];
      assert forall j :: 0 <= j < |init| ==> init[j] == parsed[j];
      assert LastBinder(init, i, key);
      LastBindingWins(init, i, key);
    }
  }

  /** Conversely, every stored value comes from the last line binding its key. */
  lemma {:induction false} StoredValueIsLast(parsed: seq<Option<Binding>>, key: string)
    requires key in Collect(parsed)
    ensures exists i :: LastBinder(parsed, i, key) && parsed[i].value.value == Collect(parsed)[key]
  {
    var last := |parsed| - 1;
    if Binds(parsed[last], key) {
      assert LastBinder(parsed, last, key);
    } else {
      var init := parsed[..last];
      StoredValueIsLast(init, key);
      var i :| LastBinder(init, i, key) && init[i].value.value == Collect(init)[key];
      assert forall j :: 0 <= j < |init| ==> init[j] == parsed[j];
      assert LastBinder(parsed, i, key);
    }
  }

  /** Collecting distributes over concatenation, the later lines taking precedence. */
  lemma {:induction false} CollectAppend(a: seq<Option<Binding>>, b: seq<Option<Binding>>)
    ensures Collect(a + b) == Collect(a) + Collect(b)
    decreases |b|
  {
    if |b| == 0 {
      assert a + b == a;
    } else {
      var b' := b[..|b| - 1];
      CollectAppend(a, b');
      assert (a + b)[..|a + b| - 1] == a + b';
      assert (a + b)[|a + b| - 1] == b[|b| - 1];
    }
  }

  /** Parsing lines is done line by line. */
  lemma ParseAllAppend(a: seq<string>, b: seq<string>)
    ensures ParseAll(a + b) == ParseAll(a) + ParseAll(b)
  {
    var l, r := ParseAll(a + b), ParseAll(a) + ParseAll(b);
    forall i | 0 <= i < |l| ensures l[i] == r[i] {
      if i < |a| {
        assert (a + b)[i] == a[i];
      } else {
        assert (a + b)[i] == b[i - |a|];
      }
    }
  }

  /** A line that does not match leaves the secrets defined by all the other lines untouched. */
  lemma SkippedLineIrrelevant(a: seq<string>, line: string, b: seq<string>)
    requires ParseLine(line).None?
    ensures ParseLines(a + [line] + b) == ParseLines(a + b)
  {
    var skipped := ParseAll([line]);
    assert skipped == [None];
    ParseAllAppend(a + [line], b);
    ParseAllAppend(a, [line]);
    ParseAllAppend(a, b);
    CollectAppend(ParseAll(a) + skipped, ParseAll(b));
    CollectAppend(ParseAll(a), skipped);
    CollectAppend(ParseAll(a), ParseAll(b));
    assert skipped[..0] == [];
  }

  /**
   Lines of the following shapes never match: an empty line, one that does
   not start with a key character (a lower-case or indented key, a byte order
   mark), one without `=`, one whose only `=` is its last character (`KEY=`),
   and one that still ends in a carriage return (a CRLF file).
   */
  lemma RejectedLines(line: string)
    ensures |line| == 0 ==> ParseLine(line).None?
    ensures |line| > 0 && !IsKeyChar(line[0]) ==> ParseLine(line).None?
    ensures '=' !in line ==> ParseLine(line).None?
    ensures |line| > 0 && line[|line| - 1] == '=' && '=' !in line[..|line| - 1] ==> ParseLine(line).None?
    ensures |line| > 0 && line[|line| - 1] == '\r' ==> ParseLine(line).None?
  {
    ParseLineMatches(line);
    if ParseLine(line).Some? {
      var k :| MatchesAt(line, k);
      assert line[k] == '=';
      assert k < |line| - 1;
      assert line[..|line| - 1][k] == '=';
    }
  }

  /**
   A line `KEY=raw` with a key of key characters and a non-empty `raw` free of
   line terminators is stored under `KEY` with the trimmed `raw`, even when
   `raw` contains further `=` or is only whitespace.
   */
  lemma AcceptedLine(key: string, raw: string)
    requires |key| > 0 && forall i :: 0 <= i < |key| ==> IsKeyChar(key[i])
    requires |raw| > 0 && NoLineTerminator(raw)
    ensures ParseLine(key + "=" + raw) == Some(Binding(key, Trim(raw)))
    ensures AllWhitespace(raw) ==> ParseLine(key + "=" + raw) == Some(Binding(key, ""))
  {
    var line := key + "=" + raw;
    var k := |key|;
    assert line[..k] == key && line[k + 1..] == raw;
    assert MatchesAt(line, k) by {
      assert forall i :: 0 <= i < k ==> line[i] == key[i];
      assert forall j :: k < j < |line| ==> line[j] == raw[j - k - 1];
    }
    MatchPosition(line, k);
  }

  /**
   `loadSecrets`: `file` is the text read from the secrets file, or None when
   reading it failed, in which case there are no secrets.
   */
  function LoadSecrets(file: Option<string>): (secrets: map<string, string>)
    ensures file.None? ==> secrets == map[]
    ensures WellFormed(secrets)
  {
    match file
    case None => map[]
    case Some(content) =>
      ParseLinesWellFormed(Split(content, '\n'));
      ParseLines(Split(content, '\n'))
  }

  /** Line `i` of `lines` binds `key`. */
  predicate LineBinds(lines: seq<string>, i: int, key: string) {
    0 <= i < |lines| && Binds(ParseLine(lines[i]), key)
  }

  /** A key is defined by a sequence of lines exactly when one of them binds it. */
  lemma ParsedKeys(lines: seq<string>, key: string)
    ensures key in ParseLines(lines) <==> exists i :: LineBinds(lines, i, key)
  {
    var parsed := ParseAll(lines);
    StoredIffSomeBinds(parsed, key);
    if key in Collect(parsed) {
      var i :| 0 <= i < |parsed| && Binds(parsed[i], key);
      assert LineBinds(lines, i, key);
    }
    if i :| LineBinds(lines, i, key) {
      assert Binds(parsed[i], key);
    }
  }

  /** A key is loaded from a readable file exactly when one of its lines binds it. */
  lemma LoadedKeys(content: string, key: string)
    ensures key in LoadSecrets(Some(content)) ==> exists i :: LineBinds(Split(content, '\n'), i, key)
    ensures (exists i :: LineBinds(Split(content, '\n'), i, key)) ==> key in LoadSecrets(Some(content))
  {
    var lines := Split(content, '\n');
    ParsedKeys(lines, key);
  }

  /** Lines none of which parses define no secrets. */
  lemma NothingBound(lines: seq<string>)
    requires forall i :: 0 <= i < |lines| ==> ParseLine(lines[i]).None?
    ensures ParseLines(lines) == map[]
  {
    var parsed := ParseAll(lines);
    forall key ensures key !in Collect(parsed) {
      StoredIffSomeBinds(parsed, key);
    }
  }

  /** The secrets of some lines followed by one more: that line's binding, if any, overrides. */
  lemma ParseLinesSnoc(init: seq<string>, last: string)
    ensures ParseLines(init + [last]) == ParseLines(init) + ParseLines([last])
  {
    ParseAllAppend(init, [last]);
    CollectAppend(ParseAll(init), ParseAll([last]));
  }

  /** The line ends in a carriage return, as every line but the last of a CRLF file does once cut at `"\n"`. */
  predicate EndsInCarriageReturn(line: string) {
    |line| > 0 && line[|line| - 1] == '\r'
  }

  /** A line ending in a carriage return is skipped: `.` does not match `\r` before `$`. */
  lemma CarriageReturnLineSkipped(line: string)
    requires EndsInCarriageReturn(line)
    ensures ParseLine(line).None?
  {
    RejectedLines(line);
  }

  /** Lines that all end in `\r`, except perhaps the last, define only what the last one binds. */
  lemma LastLineOnly(lines: seq<string>)
    requires |lines| > 0
    requires forall i :: 0 <= i < |lines| - 1 ==> EndsInCarriageReturn(lines[i])
    ensures ParseLines(lines) == ParseLines([lines[|lines| - 1]])
    ensures lines[|lines| - 1] == "" || EndsInCarriageReturn(lines[|lines| - 1]) ==> ParseLines(lines) == map[]
  {
    var init, last := lines[..|lines| - 1], lines[|lines| - 1];
    assert lines == init + [last];
    forall i | 0 <= i < |init| ensures ParseLine(init[i]).None? {
      CarriageReturnLineSkipped(init[i]);
    }
    NothingBound(init);
    ParseLinesSnoc(init, last);
    if last == "" || EndsInCarriageReturn(last) {
      RejectedLines(last);
      NothingBound([last]);
    }
  }

  /**
   In a file whose lines all end in `\r` once cut at `"\n"`, except perhaps
   the last, only that last line can be stored; a file that ends with a line
   break as well stores nothing.
   */
  lemma CrlfFileLastLineOnly(content: string)
    requires forall i :: 0 <= i < |Split(content, '\n')| - 1 ==> EndsInCarriageReturn(Split(content, '\n')[i])
    ensures LoadSecrets(Some(content)) == ParseLines([Split(content, '\n')[|Split(content, '\n')| - 1]])
    ensures var last := Split(content, '\n')[|Split(content, '\n')| - 1];
            last == "" || EndsInCarriageReturn(last) ==> LoadSecrets(Some(content)) == map[]
  {
    var lines := Split(content, '\n');
    LastLineOnly(lines);
  }

  /** The value loaded for a key is the one on the last line of the file that binds it. */
  lemma LoadedValueIsLast(content: string, key: string)
    ensures key in LoadSecrets(Some(content)) ==>
              exists i :: LastBinder(ParseAll(Split(content, '\n')), i, key)
                          && ParseLine(Split(content, '\n')[i]) == Some(Binding(key, LoadSecrets(Some(content))[key]))
  {
    var lines := Split(content, '\n');
    var parsed := ParseAll(lines);
    if key in Collect(parsed) {
      StoredValueIsLast(parsed, key);
      var i :| LastBinder(parsed, i, key) && parsed[i].value.value == Collect(parsed)[key];
      assert ParseLine(lines[i]) == parsed[i];
    }
  }
}
