/**
 * `load_headers`: each line of the headers file that contains a `:` is
 * split at its first `:` into a header name and a value, both stripped of
 * surrounding whitespace; other lines are ignored.
 */
module Headers {
  import opened Wrappers
  import opened PyStr
  import opened Dicts

  /** The `(name, value)` pair one line contributes, or `None` for a line without `:`. */
  function HeaderEntry(line: string): (entry: Option<(string, string)>)
    ensures entry.Some? ==> Contains(line, ":")
    ensures entry.Some? ==> |entry.value.0| + |entry.value.1| < |line|
  {
    match Find(line, ":")
    case None => None
    case Some(i) => Some((Strip(line[..i]), Strip(line[i + 1..])))
  }

  function HeaderEntries(lines: seq<string>): (es: seq<Option<(string, string)>>)
    ensures |es| == |lines|
  {
    seq(|lines|, i requires 0 <= i < |lines| => HeaderEntry(lines[i]))
  }

  /** The headers dict after reading `lines`. */
  function HeadersOf(lines: seq<string>): map<string, string> {
    Build(HeaderEntries(lines))
  }

  /** The loop of `load_headers` over the lines of the file. */
  method LoadHeaders(lines: seq<string>) returns (headers: map<string, string>)
    ensures headers == HeadersOf(lines)
  {
    headers := map[];
    for n := 0 to |lines|
      invariant headers == HeadersOf(lines[..n])
    {
      var line := lines[n];
      HeadersOfSnoc(lines, n);
      match Find(line, ":") {
        case Some(i) =>
          var key, value := line[..i], line[i + 1..];
          headers := headers[Strip(key) := Strip(value)];
        case None =>
      }
    }
    assert lines[..|lines|] == lines;
  }

  /** Reading one more line performs that line's assignment. */
  lemma HeadersOfSnoc(lines: seq<string>, n: nat)
    requires n < |lines|
    ensures HeadersOf(lines[..n + 1]) == Put(HeadersOf(lines[..n]), HeaderEntry(lines[n]))
  {
    assert HeaderEntries(lines[..n + 1]) == HeaderEntries(lines[..n]) + [HeaderEntry(lines[n])];
    BuildSnoc(HeaderEntries(lines[..n]), HeaderEntry(lines[n]));
  }

  /** A line contributes a header exactly when it contains `:`. */
  lemma HeaderEntryIffColon(line: string)
    ensures HeaderEntry(line).Some? <==> ':' in line
  {
    ContainsChar(line, ':');
  }

  /**
   * A line is split at its first `:` only, so the value may itself
   * contain `:`; name and value are stripped.
   */
  lemma HeaderEntryFirstColon(name: string, value: string)
    requires ':' !in name
    ensures HeaderEntry(name + ":" + value) == Some((Strip(name), Strip(value)))
  {
    var line := name + ":" + value;
    assert OccursAt(line, ":", |name|);
    forall j | 0 <= j < |name| ensures !OccursAt(line, ":", j) {
      assert line[j] == name[j];
    }
    assert line[..|name|] == name && line[|name| + 1..] == value;
  }

  /** The header names are exactly the stripped names of the lines that contain `:`. */
  lemma HeadersKeys(lines: seq<string>, name: string)
    ensures name in HeadersOf(lines) <==>
      exists i :: 0 <= i < |lines| && Assigns(HeaderEntry(lines[i]), name)
  {
    var es := HeaderEntries(lines);
    BuildKeys(es, name);
    assert forall i :: 0 <= i < |lines| ==> es[i] == HeaderEntry(lines[i]);
  }

  /** A later line for the same name overwrites an earlier one: the last such line decides the value. */
  lemma HeadersLastWins(lines: seq<string>, i: nat)
    requires i < |lines| && HeaderEntry(lines[i]).Some?
    requires forall j :: i < j < |lines| ==> !Assigns(HeaderEntry(lines[j]), HeaderEntry(lines[i]).value.0)
    ensures HeaderEntry(lines[i]).value.0 in HeadersOf(lines)
    ensures HeadersOf(lines)[HeaderEntry(lines[i]).value.0] == HeaderEntry(lines[i]).value.1
  {
    var es := HeaderEntries(lines);
    assert forall j :: 0 <= j < |lines| ==> es[j] == HeaderEntry(lines[j]);
    BuildLastWins(es, i);
  }
}
