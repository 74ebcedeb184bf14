/**
 * `get_maxpageid`: the highest page number of the search results, read
 * from the `page=` query parameter of the pagination links labelled with
 * an ellipsis. The links arrive as their HTML text, in document order.
 */
module Pagination {
  import opened Wrappers
  import opened PyStr
  import opened PyInt

  /** The `ValueError` raised when no link yields a page number. */
  datatype PageError = ValueError(message: string)

  const NoMaxPage := ValueError("Could not determine max page id.")

  /**
   * The page number one link yields: the text between its first and second
   * `page=`, cut at the first `"` and then at the first `&`, read by `int`.
   * `None` stands for the `IndexError` (no `page=`) and the `ValueError`
   * (not an integer) that the source catches, so only a link that says
   * `page=` yields a number.
   */
  function AnchorPage(anchor: string): (page: Option<int>)
    ensures page.Some? ==> Contains(anchor, "page=")
  {
    var pieces := Split(anchor, "page=");
    SplitCount(anchor, "page=");
    if |pieces| < 2 then None
    else ParseInt(Split(Split(pieces[1], "\"")[0], "&")[0])
  }

  /** `get_maxpageid` over the stringified ellipsis links: the first link that yields a number wins. */
  method GetMaxPageId(anchors: seq<string>) returns (r: Result<int, PageError>)
    ensures r.Success? <==> exists i :: 0 <= i < |anchors| && AnchorPage(anchors[i]).Some?
    ensures r.Success? ==> exists i :: 0 <= i < |anchors| && AnchorPage(anchors[i]) == Some(r.value)
                                         && forall j :: 0 <= j < i ==> AnchorPage(anchors[j]).None?
    ensures r.Failure? ==> r.error == NoMaxPage
  {
    for i := 0 to |anchors|
      invariant forall j :: 0 <= j < i ==> AnchorPage(anchors[j]).None?
    {
      var page := AnchorPage(anchors[i]);
      if page.Some? {
        return Success(page.value);
      }
    }
    return Failure(NoMaxPage);
  }

  /**
   * The link the site writes for page `n`, `...page=<str(n)>"...` or
   * `...page=<str(n)>&...`, yields `n` when nothing before it says `page=`
   * and `n` has no more digits than `int` reads.
   */
  lemma AnchorPageOfLink(prefix: string, n: int, close: char, rest: string)
    requires !Contains(prefix, "page=")
    requires close == '"' || close == '&'
    requires DecimalDigits(n) <= MaxStrDigits
    ensures AnchorPage(prefix + "page=" + IntToString(n) + [close] + rest) == Some(n)
  {
    var num := IntToString(n);
    var tail := num + [close] + rest;
    assert prefix + "page=" + IntToString(n) + [close] + rest == prefix + "page=" + tail;
    SecondPiece(prefix, tail);
    IntToStringChars(n);
    NumberPiece(num, close, rest);
    CutAtClose(Split(tail, "page=")[0], num, close);
    IntToStringRoundTrip(n);
  }

  /** The piece after the first `page=` is the start of what follows it, up to any next `page=`. */
  lemma SecondPiece(prefix: string, tail: string)
    requires !Contains(prefix, "page=")
    ensures |Split(prefix + "page=" + tail, "page=")| >= 2
    ensures Split(prefix + "page=" + tail, "page=")[1] == Split(tail, "page=")[0]
  {
    var s := prefix + "page=" + tail;
    FirstPageParam(prefix, tail);
    assert s[|prefix| + 5..] == tail;
  }

  /** A number and its closing character hold no `page=`, so they begin the piece. */
  lemma NumberPiece(num: string, close: char, rest: string)
    requires forall k :: 0 <= k < |num| ==> IsDigit(num[k]) || num[k] == '-'
    requires close == '"' || close == '&'
    ensures |num| + 1 <= |Split(num + [close] + rest, "page=")[0]|
    ensures Split(num + [close] + rest, "page=")[0][..|num| + 1] == num + [close]
  {
    var tail := num + [close] + rest;
    forall j | 0 <= j < |num| + 1 ensures !OccursAt(tail, "page=", j) {
      assert j < |num| ==> tail[j] == num[j];
      assert j + 5 <= |tail| ==> tail[j..j + 5][0] == tail[j];
    }
    SplitHeadKeeps(tail, "page=", |num| + 1);
    assert tail[..|num| + 1] == num + [close];
  }

  /** The first `page=` of `prefix + "page=" + tail` is the one after `prefix`. */
  lemma FirstPageParam(prefix: string, tail: string)
    requires !Contains(prefix, "page=")
    ensures Find(prefix + "page=" + tail, "page=") == Some(|prefix|)
  {
    var s := prefix + "page=" + tail;
    assert OccursAt(s, "page=", |prefix|);
    forall j | 0 <= j < |prefix| ensures !OccursAt(s, "page=", j) {
      if j + 5 <= |prefix| {
        assert s[j..j + 5] == prefix[j..j + 5];
        assert !OccursAt(prefix, "page=", j);
      } else {
        var d := |prefix| - j;
        assert s[|prefix|] == 'p';
        assert "page="[d] != 'p';
        assert j + 5 <= |s| ==> s[j..j + 5][d] == s[|prefix|];
      }
    }
  }

  /** Cutting `num + [close] + ...` at the first `"` and then at the first `&` leaves `num`. */
  lemma CutAtClose(segment: string, num: string, close: char)
    requires close == '"' || close == '&'
    requires forall k :: 0 <= k < |num| ==> num[k] != '"' && num[k] != '&'
    requires |num| + 1 <= |segment| && segment[..|num| + 1] == num + [close]
    ensures Split(Split(segment, "\"")[0], "&")[0] == num
  {
    assert '"' !in num && '&' !in num;
    assert segment[..|num| + 1][|num|] == close;
    assert segment[..|num|] == segment[..|num| + 1][..|num|] == (num + [close])[..|num|] == num;
    if close == '"' {
      CutAt(segment, num, '"');
      assert Split(segment, "\"")[0] == num;
      CutAt(num, num, '&');
    } else {
      assert '"' !in num + "&";
      KeepPast(segment, num + "&", '"');
      var head := Split(segment, "\"")[0];
      assert head[..|num|] == num;
      CutAt(head, num, '&');
    }
  }

  /** Up to the first `c`, which closes `num`, the first piece of a split on `c` is `num`. */
  lemma CutAt(s: string, num: string, c: char)
    requires c !in num
    requires |num| <= |s| && s[..|num|] == num
    requires |num| < |s| ==> s[|num|] == c
    ensures Split(s, [c])[0] == num
  {
    forall j | 0 <= j < |num| ensures !OccursAt(s, [c], j) {
      assert s[j] == num[j];
      assert j + 1 <= |s| ==> s[j..j + 1] == [s[j]];
    }
    if |num| < |s| {
      assert s[|num|..|num| + 1] == [c];
      SplitHeadStops(s, [c], |num|);
    } else {
      assert s == num;
      forall j: nat | |num| <= j ensures !OccursAt(s, [c], j) {}
    }
  }

  /** A split on `c` keeps a prefix in which `c` does not occur. */
  lemma KeepPast(s: string, t: string, c: char)
    requires c !in t
    requires |t| <= |s| && s[..|t|] == t
    ensures |t| <= |Split(s, [c])[0]| && Split(s, [c])[0][..|t|] == t
  {
    forall j | 0 <= j < |t| ensures !OccursAt(s, [c], j) {
      assert s[j] == t[j];
      assert j + 1 <= |s| ==> s[j..j + 1] == [s[j]];
    }
    SplitHeadKeeps(s, [c], |t|);
  }
}
