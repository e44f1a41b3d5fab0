/**
 * Frame extraction as get_next_json does it on its accumulated buffer: the
 * first `{` anywhere in the buffer, the last `}` anywhere in the buffer, and
 * the text between them (both included) handed to the JSON parser.
 */
module Framing {
  import opened Wrappers

  /** `k` is the position of the first `c` in `s`. */
  predicate FirstAt(s: string, c: char, k: nat)
  {
    k < |s| && s[k] == c && forall i :: 0 <= i < k ==> s[i] != c
  }

  /** `k` is the position of the last `c` in `s`. */
  predicate LastAt(s: string, c: char, k: nat)
  {
    k < |s| && s[k] == c && forall i :: k < i < |s| ==> s[i] != c
  }

  /** s.index(c), or None where `c in s` is false. */
  function FirstIndexOf(s: string, c: char): (r: Option<nat>)
    ensures r.Some? ==> FirstAt(s, c, r.value)
    ensures r.None? <==> c !in s
  {
    if s == [] then None
    else if s[0] == c then Some(0)
    else
      match FirstIndexOf(s[1..], c)
      case None => assert s == [s[0]] + s[1..]; None
      case Some(k) => Some(k + 1)
  }

  /** s.rindex(c), or None where `c in s` is false. */
  function LastIndexOf(s: string, c: char): (r: Option<nat>)
    ensures r.Some? ==> LastAt(s, c, r.value)
    ensures r.None? <==> c !in s
  {
    if s == [] then None
    else if s[|s| - 1] == c then Some(|s| - 1)
    else
      assert s == s[..|s| - 1] + [s[|s| - 1]];
      LastIndexOf(s[..|s| - 1], c)
  }

  /**
   * json.loads accepts `text`. The parser is an oracle, `parse`; the empty
   * text is never valid JSON, whatever the oracle says of it.
   */
  predicate Parses<M>(parse: string -> Option<M>, text: string)
  {
    text != "" && parse(text).Some?
  }

  /** The outcome of one extraction attempt on the buffer. */
  datatype Extraction = Found(frame: string, rest: string) | NotYet

  /**
   * One attempt of get_next_json on the buffer `buf`: on success the frame and
   * what is left of the buffer after its closing `}`; otherwise the buffer is
   * kept as it is. When the last `}` lies before the first `{` the Python
   * slice buf[start:end + 1] is empty, and the empty text does not parse.
   */
  function Extract<M>(buf: string, parse: string -> Option<M>): Extraction
  {
    match FirstIndexOf(buf, '{')
    case None => NotYet
    case Some(start) =>
      match LastIndexOf(buf, '}')
      case None => NotYet
      case Some(end) =>
        var candidate := if start <= end then buf[start..end + 1] else "";
        if Parses(parse, candidate) then Found(candidate, buf[end + 1..]) else NotYet
  }

  /** A frame as get_next_json returns it: opens with `{` and closes with `}`. */
  predicate WellShaped(f: string)
  {
    |f| >= 2 && f[0] == '{' && f[|f| - 1] == '}'
  }

  /**
   * With `s` the first `{`, `e` the last `}`, `s <= e` and buf[s..e] valid,
   * the attempt returns exactly buf[s..e] and keeps exactly what follows `e`.
   */
  lemma ExtractFound<M>(buf: string, parse: string -> Option<M>, s: nat, e: nat)
    requires FirstAt(buf, '{', s) && LastAt(buf, '}', e) && s <= e
    requires Parses(parse, buf[s..e + 1])
    ensures Extract(buf, parse) == Found(buf[s..e + 1], buf[e + 1..])
  {
    var start := FirstIndexOf(buf, '{');
    var end := LastIndexOf(buf, '}');
    assert start == Some(s) by {
      assert '{' in buf;
    }
    assert end == Some(e) by {
      assert '}' in buf;
    }
  }

  /**
   * An attempt succeeds exactly when the buffer has a first `{`, a last `}`
   * at or after it, and the text between them parses.
   */
  lemma ExtractSucceedsIff<M>(buf: string, parse: string -> Option<M>)
    ensures Extract(buf, parse).Found? <==>
      exists s: nat, e: nat :: FirstAt(buf, '{', s) && LastAt(buf, '}', e) && s <= e
                               && Parses(parse, buf[s..e + 1])
  {
    if Extract(buf, parse).Found? {
      var s := FirstIndexOf(buf, '{').value;
      var e := LastIndexOf(buf, '}').value;
      assert FirstAt(buf, '{', s) && LastAt(buf, '}', e) && s <= e && Parses(parse, buf[s..e + 1]);
    }
    if exists s: nat, e: nat :: FirstAt(buf, '{', s) && LastAt(buf, '}', e) && s <= e
                                && Parses(parse, buf[s..e + 1]) {
      var s: nat, e: nat :| FirstAt(buf, '{', s) && LastAt(buf, '}', e) && s <= e
                            && Parses(parse, buf[s..e + 1]);
      ExtractFound(buf, parse, s, e);
    }
  }

  /** Cutting a text around the slice s[a..b] and putting it back together. */
  lemma ThreeWaySplit(t: string, a: nat, b: nat)
    requires a <= b <= |t|
    ensures t == t[..a] + t[a..b] + t[b..]
  {
  }

  /** What a successful attempt is made of: the first `{`, the last `}` and the slices they bound. */
  lemma ExtractParts<M>(buf: string, parse: string -> Option<M>, frame: string, rest: string)
      returns (s: nat, e: nat)
    requires Extract(buf, parse) == Found(frame, rest)
    ensures FirstAt(buf, '{', s) && LastAt(buf, '}', e) && s <= e
    ensures frame == buf[s..e + 1] && rest == buf[e + 1..] && Parses(parse, frame)
  {
    s := FirstIndexOf(buf, '{').value;
    e := LastIndexOf(buf, '}').value;
  }

  /**
   * Cutting a buffer around its first `{` at s and its last `}` at e: the
   * slice between opens and closes with a brace, nothing before s is `{`,
   * nothing after e is `}`, and the three pieces make the buffer again.
   */
  lemma SplitAround(buf: string, s: nat, e: nat)
    requires FirstAt(buf, '{', s) && LastAt(buf, '}', e) && s <= e
    ensures WellShaped(buf[s..e + 1])
    ensures '}' !in buf[e + 1..] && '{' !in buf[..s]
    ensures buf == buf[..s] + buf[s..e + 1] + buf[e + 1..]
  {
    ThreeWaySplit(buf, s, e + 1);
    var noise, rest := buf[..s], buf[e + 1..];
    assert '}' !in rest by {
      forall i | 0 <= i < |rest| ensures rest[i] != '}' {
        assert rest[i] == buf[e + 1 + i];
      }
    }
    assert '{' !in noise by {
      forall i | 0 <= i < s ensures noise[i] != '{' {
        assert noise[i] == buf[i];
      }
    }
  }

  /**
   * A successful attempt splits the buffer into noise without `{`, the frame
   * and a rest without `}`; the frame is well shaped and parses.
   */
  lemma ExtractShape<M>(buf: string, parse: string -> Option<M>, frame: string, rest: string)
    requires Extract(buf, parse) == Found(frame, rest)
    ensures WellShaped(frame) && Parses(parse, frame)
    ensures '}' !in rest
    ensures exists s: nat :: s <= |buf| && buf == buf[..s] + frame + rest && '{' !in buf[..s]
  {
    var s, e := ExtractParts(buf, parse, frame, rest);
    SplitAround(buf, s, e);
    assert s <= |buf| && buf == buf[..s] + frame + rest && '{' !in buf[..s];
  }
}
