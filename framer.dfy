/** `MessageUtil.retrieve_json`: cuts one JSON object off the front of a data
    buffer that may hold leading noise, several objects back to back, or the
    beginning of an object whose end has not arrived yet.

    The brace count is naive, as in the source: `{` and `}` inside string
    literals count like structural braces.

    Positions are counted as in the source; an end position `e` is exclusive,
    so the object the source returns as `data[start..mi]` (inclusive) is
    `data[start..e]` here with `e = mi + 1`. */
module MessageUtil {
  import opened Json

  /** What one character does to the brace depth. */
  function Delta(c: char): int {
    if c == '{' then 1 else if c == '}' then -1 else 0
  }

  /** Brace depth of `s[i..j]`: the number of `{` minus the number of `}`. */
  function Depth(s: string, i: nat, j: nat): int
    requires i <= j <= |s|
    decreases j
  {
    if j == i then 0 else Depth(s, i, j - 1) + Delta(s[j - 1])
  }

  /** Index of the first `{` at or after `i`, or the length when there is none. */
  function FirstBraceFrom(data: string, i: nat): (start: nat)
    requires i <= |data|
    ensures i <= start <= |data|
    ensures forall k | i <= k < start :: data[k] != '{'
    ensures start < |data| ==> data[start] == '{'
    decreases |data| - i
  {
    if i == |data| || data[i] == '{' then i else FirstBraceFrom(data, i + 1)
  }

  function FirstBrace(data: string): (start: nat)
    ensures start <= |data|
    ensures forall k | 0 <= k < start :: data[k] != '{'
    ensures start < |data| ==> data[start] == '{'
  {
    FirstBraceFrom(data, 0)
  }

  /** The first end position after `from` where the depth counted from `start`
      is zero, if any. */
  function CloseFrom(data: string, start: nat, from: nat): (r: Option<nat>)
    requires start <= from <= |data|
    ensures r.None? ==> forall e | from < e <= |data| :: Depth(data, start, e) != 0
    ensures r.Some? ==> from < r.value <= |data| && Depth(data, start, r.value) == 0
    ensures r.Some? ==> forall e | from < e < r.value :: Depth(data, start, e) != 0
    decreases |data| - from
  {
    if from == |data| then None
    else if Depth(data, start, from + 1) == 0 then Some(from + 1)
    else CloseFrom(data, start, from + 1)
  }

  /** The specification of `retrieve_json`: `(msg, rest)` where `msg` runs from
      the first `{` to the first position where the depth returns to zero, and
      `rest` is everything after it; `None` for "no complete message yet". */
  function Frame(data: string): Option<(string, string)> {
    if data == [] then None
    else
      var start := FirstBrace(data);
      match CloseFrom(data, start, start)
      case None => None
      case Some(e) => Some((data[start..e], data[e..]))
  }

  /** `retrieve_json`, with its two loops: one advancing `start` to the first
      `{`, one counting depth in `on` until it returns to zero at `mi`. */
  method RetrieveJson(data: string) returns (r: Option<(string, string)>)
    ensures r == Frame(data)
  {
    if |data| == 0 {
      return None;
    }
    var start := 0;
    while start != |data| && data[start] != '{'
      invariant start <= |data|
      invariant forall k | 0 <= k < start :: data[k] != '{'
    {
      start := start + 1;
    }
    assert start == FirstBrace(data);
    var on, mi := 0, 0;
    var i := start;
    while i < |data|
      invariant start <= i <= |data|
      invariant on == Depth(data, start, i)
      invariant mi == 0
      invariant CloseFrom(data, start, start) == CloseFrom(data, start, i)
    {
      CloseFromStep(data, start, i);
      if data[i] == '{' {
        on := on + 1;
      } else if data[i] == '}' {
        on := on - 1;
      }
      if on == 0 {
        assert i != start;
        mi := i;
        break;
      }
      i := i + 1;
    }
    if mi == 0 {
      FrameAt(data, start);
      return None;
    }
    assert CloseFrom(data, start, start) == Some(mi + 1);
    FrameAt(data, start);
    return Some((data[start..mi + 1], data[mi + 1..]));
  }

  /** Frame in terms of where its scan starts. */
  lemma FrameAt(data: string, start: nat)
    requires data != [] && start == FirstBrace(data)
    ensures CloseFrom(data, start, start).None? ==> Frame(data) == None
    ensures CloseFrom(data, start, start).Some? ==>
      var e := CloseFrom(data, start, start).value;
      Frame(data) == Some((data[start..e], data[e..]))
  {
  }

  /** One character of the scan: the depth moves by its Delta, and CloseFrom
      either stops after it or goes on from the next position. */
  lemma CloseFromStep(data: string, start: nat, i: nat)
    requires start <= i < |data|
    ensures Depth(data, start, i + 1) == Depth(data, start, i) + Delta(data[i])
    ensures CloseFrom(data, start, i) ==
      if Depth(data, start, i + 1) == 0 then Some(i + 1) else CloseFrom(data, start, i + 1)
  {
  }

  /** An object as the framer delimits it: it opens with `{`, and the depth
      counted from that `{` is zero at its end and at no earlier position. */
  predicate IsFramedObject(msg: string) {
    && |msg| > 0
    && msg[0] == '{'
    && Depth(msg, 0, |msg|) == 0
    && forall e | 0 < e < |msg| :: Depth(msg, 0, e) > 0
  }

  /** Such an object has at least two characters and ends with `}`. */
  lemma FramedObjectEndsWithClose(msg: string)
    requires IsFramedObject(msg)
    ensures |msg| >= 2 && msg[|msg| - 1] == '}'
  {
    assert Depth(msg, 0, 1) == 1;
    assert Depth(msg, 0, |msg| - 1) > 0;
  }

  /** The depth of a slice, counted from its own start, is the depth of the
      same characters in the buffer. */
  lemma {:induction false} DepthOfSlice(data: string, lo: nat, hi: nat, k: nat)
    requires lo <= hi <= |data| && k <= hi - lo
    ensures Depth(data[lo..hi], 0, k) == Depth(data, lo, lo + k)
    decreases k
  {
    if k > 0 {
      DepthOfSlice(data, lo, hi, k - 1);
      assert data[lo..hi][k - 1] == data[lo + k - 1];
    }
  }

  /** No depth counted from a `{` is negative before it first reaches zero. */
  lemma {:induction false} DepthPositiveBeforeClose(data: string, start: nat, e: nat)
    requires start < e <= |data| && data[start] == '{'
    requires forall k | start < k <= e :: Depth(data, start, k) != 0
    ensures Depth(data, start, e) > 0
    decreases e
  {
    if e > start + 1 {
      DepthPositiveBeforeClose(data, start, e - 1);
    }
  }

  /** The framer's "not yet" answers (empty buffer, no `{`, an object not yet
      closed), and that they are the only ones. */
  lemma FrameNotYet(data: string)
    ensures data == [] ==> Frame(data) == None
    ensures (forall k | 0 <= k < |data| :: data[k] != '{') ==> Frame(data) == None
    ensures Frame(data) == None <==>
      forall e | FirstBrace(data) < e <= |data| :: Depth(data, FirstBrace(data), e) != 0
  {
    var start := FirstBrace(data);
    if data != [] {
      var c := CloseFrom(data, start, start);
      if c.Some? {
        assert Depth(data, start, c.value) == 0;
        assert Frame(data) == Some((data[start..c.value], data[c.value..]));
      } else {
        assert Frame(data) == None;
      }
    }
  }

  /** What a complete message is made of: the first `{` of the buffer, and the
      end position where its depth first returns to zero. */
  lemma FrameSome(data: string)
    requires Frame(data).Some?
    ensures FirstBrace(data) < |data|
    ensures CloseFrom(data, FirstBrace(data), FirstBrace(data)).Some?
    ensures var start := FirstBrace(data);
            var e := CloseFrom(data, start, start).value;
            Frame(data) == Some((data[start..e], data[e..]))
  {
  }

  /** A complete message: it starts at the first `{`, is a framed object, ends
      with `}`, message and rest together are the buffer from that `{` on, and
      the rest is strictly shorter than the buffer. */
  lemma FrameFound(data: string, msg: string, rest: string)
    requires Frame(data) == Some((msg, rest))
    ensures FirstBrace(data) < |data|
    ensures msg + rest == data[FirstBrace(data)..]
    ensures IsFramedObject(msg)
    ensures |msg| >= 2 && msg[0] == '{' && msg[|msg| - 1] == '}'
    ensures |rest| < |data|
  {
    FrameSome(data);
    var start := FirstBrace(data);
    var e := CloseFrom(data, start, start).value;
    ClosedSliceIsFramed(data, start, e);
    FramedObjectEndsWithClose(msg);
    SliceSplit(data, start, e);
  }

  lemma SliceSplit(data: string, i: nat, j: nat)
    requires i <= j <= |data|
    ensures data[i..j] + data[j..] == data[i..]
  {
  }

  /** The slice from a `{` to the first zero of its depth is a framed object. */
  lemma ClosedSliceIsFramed(data: string, start: nat, e: nat)
    requires start < e <= |data| && data[start] == '{'
    requires Depth(data, start, e) == 0
    requires forall k | start < k < e :: Depth(data, start, k) != 0
    ensures IsFramedObject(data[start..e])
  {
    var msg := data[start..e];
    DepthOfSlice(data, start, e, |msg|);
    forall k | 0 < k < |msg| ensures Depth(msg, 0, k) > 0 {
      DepthOfSlice(data, start, e, k);
      DepthPositiveBeforeClose(data, start, start + k);
    }
  }

  /** The first zero of the depth is where CloseFrom stops. */
  lemma CloseFromFirstZero(data: string, start: nat, from: nat, e: nat)
    requires start <= from < e <= |data|
    requires Depth(data, start, e) == 0
    requires forall k | from < k < e :: Depth(data, start, k) != 0
    ensures CloseFrom(data, start, from) == Some(e)
  {
  }

  /** Noise without `{`, then a framed object, then anything: the framer returns
      exactly that object and the text after it. */
  lemma FrameConcat(noise: string, msg: string, rest: string)
    requires forall k | 0 <= k < |noise| :: noise[k] != '{'
    requires IsFramedObject(msg)
    ensures Frame(noise + msg + rest) == Some((msg, rest))
  {
    var data := noise + msg + rest;
    var start := |noise|;
    var e := start + |msg|;
    assert data[start] == msg[0];
    assert forall k | 0 <= k < start :: data[k] == noise[k];
    assert FirstBrace(data) == start;
    assert data[start..e] == msg;
    forall k | start < k <= e ensures Depth(data, start, k) == Depth(msg, 0, k - start) {
      DepthOfSlice(data, start, e, k - start);
    }
    CloseFromFirstZero(data, start, start, e);
    assert data[e..] == rest;
  }

  /** How a receiver uses the framer: cut messages off the buffer until none is
      complete; the leftover is kept for more data. Terminates because every
      rest is shorter than its buffer. */
  function Drain(data: string): (r: (seq<string>, string))
    ensures forall i | 0 <= i < |r.0| :: IsFramedObject(r.0[i])
    ensures Frame(r.1) == None
    ensures |r.1| <= |data|
    decreases |data|
  {
    match Frame(data)
    case None => ([], data)
    case Some((msg, rest)) =>
      FrameFound(data, msg, rest);
      var (more, left) := Drain(rest);
      ([msg] + more, left)
  }

  function Concat(msgs: seq<string>): string {
    if msgs == [] then [] else msgs[0] + Concat(msgs[1..])
  }

  /** A framed object in front of a buffer is drained first, and the rest of
      the buffer drains as it would alone. */
  lemma DrainFramedHead(msg: string, rest: string)
    requires IsFramedObject(msg)
    ensures Drain(msg + rest) == ([msg] + Drain(rest).0, Drain(rest).1)
  {
    FrameConcat([], msg, rest);
    assert [] + msg + rest == msg + rest;
  }

  /** Framed objects sent back to back are received one by one, in order, with
      nothing left over. */
  lemma {:induction false} DrainConcat(msgs: seq<string>)
    requires forall i | 0 <= i < |msgs| :: IsFramedObject(msgs[i])
    ensures Drain(Concat(msgs)) == (msgs, [])
  {
    if msgs == [] {
      FrameNotYet([]);
    } else {
      var tail := msgs[1..];
      DrainFramedHead(msgs[0], Concat(tail));
      forall i | 0 <= i < |tail| ensures IsFramedObject(tail[i]) {
        assert tail[i] == msgs[i + 1];
      }
      DrainConcat(tail);
      assert [msgs[0]] + tail == msgs;
    }
  }

  /** Text without braces, such as `"a":1`. */
  predicate NoBraces(s: string) {
    forall k | 0 <= k < |s| :: s[k] != '{' && s[k] != '}'
  }

  /** Text whose braces pair up: depth zero at the end and never negative. */
  predicate Balanced(s: string) {
    && Depth(s, 0, |s|) == 0
    && forall k | 0 <= k <= |s| :: Depth(s, 0, k) >= 0
  }

  /** Depth over a concatenation: the first part's prefixes, then the whole
      first part followed by the second part's prefixes. */
  lemma {:induction false} DepthOfConcat(a: string, b: string, k: nat)
    requires k <= |a + b|
    ensures k <= |a| ==> Depth(a + b, 0, k) == Depth(a, 0, k)
    ensures |a| <= k ==> Depth(a + b, 0, k) == Depth(a, 0, |a|) + Depth(b, 0, k - |a|)
    decreases k
  {
    if k > 0 {
      DepthOfConcat(a, b, k - 1);
      if k <= |a| {
        assert (a + b)[k - 1] == a[k - 1];
      } else {
        assert (a + b)[k - 1] == b[k - 1 - |a|];
      }
    }
  }

  lemma {:induction false} NoBracesDepth(s: string, k: nat)
    requires NoBraces(s) && k <= |s|
    ensures Depth(s, 0, k) == 0
    decreases k
  {
    if k > 0 {
      NoBracesDepth(s, k - 1);
    }
  }

  lemma NoBracesBalanced(s: string)
    requires NoBraces(s)
    ensures Balanced(s)
    ensures forall k | 0 <= k <= |s| :: Depth(s, 0, k) == 0
  {
    forall k | 0 <= k <= |s| ensures Depth(s, 0, k) == 0 {
      NoBracesDepth(s, k);
    }
  }

  lemma BalancedAppend(a: string, b: string)
    requires Balanced(a) && Balanced(b)
    ensures Balanced(a + b)
  {
    forall k | 0 <= k <= |a + b| ensures Depth(a + b, 0, k) >= 0 {
      DepthOfConcat(a, b, k);
    }
    DepthOfConcat(a, b, |a + b|);
  }

  /** `{`, balanced text, `}`: a framed object. */
  lemma WrapIsFramed(inner: string)
    requires Balanced(inner)
    ensures IsFramedObject(['{'] + inner + ['}'])
  {
    var m := ['{'] + inner + ['}'];
    var open := ['{'] + inner;
    assert Depth(['{'], 0, 1) == 1;
    forall k | 0 < k < |m| ensures Depth(m, 0, k) > 0 {
      DepthOfConcat(open, ['}'], k);
      DepthOfConcat(['{'], inner, k);
    }
    DepthOfConcat(open, ['}'], |m|);
    DepthOfConcat(['{'], inner, |open|);
    assert Depth(['}'], 0, 1) == -1;
  }

  lemma FramedIsBalanced(m: string)
    requires IsFramedObject(m)
    ensures Balanced(m)
  {
  }

  /** `{"a":1}` and `{"b":2}` are framed objects. */
  lemma ExampleObjectsFramed()
    ensures IsFramedObject("{\"a\":1}") && IsFramedObject("{\"b\":2}")
  {
    NoBracesBalanced("\"a\":1");
    WrapIsFramed("\"a\":1");
    assert "{\"a\":1}" == ['{'] + "\"a\":1" + ['}'];
    NoBracesBalanced("\"b\":2");
    WrapIsFramed("\"b\":2");
    assert "{\"b\":2}" == ['{'] + "\"b\":2" + ['}'];
  }

  /** Two objects back to back come out one after the other, the second with
      an empty rest. */
  lemma ExampleSequentialDrain()
    ensures Frame("{\"a\":1}{\"b\":2}") == Some(("{\"a\":1}", "{\"b\":2}"))
    ensures Frame("{\"b\":2}") == Some(("{\"b\":2}", ""))
  {
    ExampleObjectsFramed();
    var a, b := "{\"a\":1}", "{\"b\":2}";
    FrameConcat("", a, b);
    assert "" + a + b == "{\"a\":1}{\"b\":2}";
    FrameConcat("", b, "");
    assert "" + b + "" == b;
  }

  /** Leading noise is skipped and a nested object is taken whole. */
  lemma ExampleNoiseAndNesting()
    ensures Frame("garbage{\"a\":{\"b\":1}}") == Some(("{\"a\":{\"b\":1}}", ""))
  {
    NoBracesBalanced("\"b\":1");
    WrapIsFramed("\"b\":1");
    assert "{\"b\":1}" == ['{'] + "\"b\":1" + ['}'];
    FramedIsBalanced("{\"b\":1}");
    NoBracesBalanced("\"a\":");
    BalancedAppend("\"a\":", "{\"b\":1}");
    WrapIsFramed("\"a\":" + "{\"b\":1}");
    assert "{\"a\":{\"b\":1}}" == ['{'] + ("\"a\":" + "{\"b\":1}") + ['}'];
    FrameConcat("garbage", "{\"a\":{\"b\":1}}", "");
    assert "garbage" + "{\"a\":{\"b\":1}}" + "" == "garbage{\"a\":{\"b\":1}}";
  }

  /** An object whose end has not arrived: no message yet. */
  lemma ExamplePartial()
    ensures Frame("{\"a\":1") == None
  {
    var data := "{\"a\":1";
    assert data == ['{'] + "\"a\":1";
    NoBracesBalanced("\"a\":1");
    assert Depth(['{'], 0, 1) == 1;
    forall e | 0 < e <= |data| ensures Depth(data, 0, e) != 0 {
      DepthOfConcat(['{'], "\"a\":1", e);
    }
    FrameNotYet(data);
  }

  /** The count ignores string literals: a `}` inside a quoted value closes
      the object early. */
  lemma ExampleBraceInsideString()
    ensures Frame("{\"a\":\"}\"}") == Some(("{\"a\":\"}", "\"}"))
  {
    NoBracesBalanced("\"a\":\"");
    WrapIsFramed("\"a\":\"");
    assert "{\"a\":\"}" == ['{'] + "\"a\":\"" + ['}'];
    FrameConcat("", "{\"a\":\"}", "\"}");
    assert "" + "{\"a\":\"}" + "\"}" == "{\"a\":\"}\"}";
  }
}
