/** CR LF line framing on the control connection. The server reads a
    command line byte by byte until the bytes read so far end in CR LF
    (`Ftp::read`, crates/cftp/src/ftp.rs); a client reads the server's
    replies the same way. The functions here are generic in the element
    type so that both the byte stream and reply text can be framed. */
module Framing {

  datatype Line<T> = Line(line: seq<T>, rest: seq<T>, terminated: bool)

  /** No CR LF pair occurs anywhere in `s`. */
  predicate NoCrlf<T(==)>(s: seq<T>, cr: T, lf: T) {
    forall i :: 0 <= i < |s| - 1 ==> !(s[i] == cr && s[i + 1] == lf)
  }

  /** The read loop of `Ftp::read`: append the next byte to `buf`; stop
      when `buf` ends in CR LF (and drop those two) or when the input is
      exhausted. */
  function ReadLoop<T(==)>(buf: seq<T>, input: seq<T>, cr: T, lf: T): (r: Line<T>)
    ensures |r.rest| <= |input|
    ensures r.terminated ==> |r.rest| < |input|
    decreases |input|
  {
    if |input| == 0 then Line(buf, [], false)
    else
      var b := buf + [input[0]];
      if |b| >= 2 && b[|b| - 2] == cr && b[|b| - 1] == lf then
        Line(b[..|b| - 2], input[1..], true)
      else
        ReadLoop(b, input[1..], cr, lf)
  }

  /** One line taken off the front of `s`. */
  function TakeLine<T(==)>(s: seq<T>, cr: T, lf: T): (r: Line<T>)
    ensures |r.rest| <= |s|
    ensures r.terminated ==> |r.rest| < |s|
  {
    ReadLoop([], s, cr, lf)
  }

  /** What the read loop computes, stated without the loop: it stops at the
      first CR LF pair of its input, and otherwise returns everything. */
  lemma {:induction false} ReadLoopFindsFirstCrlf<T>(buf: seq<T>, input: seq<T>, cr: T, lf: T)
    requires NoCrlf(buf, cr, lf)
    ensures var r := ReadLoop(buf, input, cr, lf);
      && (r.terminated ==> buf + input == r.line + [cr, lf] + r.rest && NoCrlf(r.line + [cr], cr, lf))
      && (!r.terminated ==> r.line == buf + input && r.rest == [] && NoCrlf(buf + input, cr, lf))
    decreases |input|
  {
    if |input| == 0 {
      assert buf + input == buf;
    } else {
      var b := buf + [input[0]];
      assert buf + input == b + input[1..];
      if |b| >= 2 && b[|b| - 2] == cr && b[|b| - 1] == lf {
        assert b == b[..|b| - 2] + [cr, lf];
        assert b[..|b| - 2] + [cr] == b[..|b| - 1];
        assert b[..|b| - 1] == buf;
      } else {
        assert NoCrlf(b, cr, lf) by {
          forall i | 0 <= i < |b| - 1 ensures !(b[i] == cr && b[i + 1] == lf) {
            if i < |b| - 2 { assert b[i] == buf[i] && b[i + 1] == buf[i + 1]; }
          }
        }
        ReadLoopFindsFirstCrlf(b, input[1..], cr, lf);
      }
    }
  }

  /** A line framed by a client: `TakeLine` of the text, then the CR LF, then
      anything, gives back exactly that line and that remainder, as long as
      the line holds no CR. */
  lemma TakeLineOfFramed<T>(l: seq<T>, rest: seq<T>, cr: T, lf: T)
    requires cr != lf
    requires cr !in l
    ensures TakeLine(l + [cr, lf] + rest, cr, lf) == Line(l, rest, true)
  {
    var s := l + [cr, lf] + rest;
    ReadLoopFindsFirstCrlf([], s, cr, lf);
    var r := ReadLoop([], s, cr, lf);
    assert [] + s == s;
    assert s[|l|] == cr && s[|l| + 1] == lf;
    assert !NoCrlf(s, cr, lf);
    assert r.terminated;
    FirstCrlfUnique(s, r.line, r.rest, l, rest, cr, lf);
  }

  /** Two ways of cutting `s` at a CR LF pair agree when the first cut is at
      the first pair and the second line holds no CR. */
  lemma FirstCrlfUnique<T>(s: seq<T>, l1: seq<T>, rest1: seq<T>, l2: seq<T>, rest2: seq<T>, cr: T, lf: T)
    requires cr != lf
    requires s == l1 + [cr, lf] + rest1 && s == l2 + [cr, lf] + rest2
    requires NoCrlf(l1 + [cr], cr, lf)
    requires cr !in l2
    ensures l1 == l2 && rest1 == rest2
  {
    var p := l1 + [cr];
    assert forall i :: 0 <= i < |l2| ==> s[i] == l2[i];
    assert s[|l1|] == cr;
    assert forall i :: 0 <= i < |p| ==> p[i] == s[i];
    assert s[|l2|] == cr && s[|l2| + 1] == lf;
    assert |l1| == |l2|;
    assert l1 == s[..|l1|] == l2;
    assert rest1 == s[|l1| + 2..] == rest2;
  }

  lemma NoCrInLNoCrlf<T>(l: seq<T>, cr: T, lf: T)
    requires cr !in l
    ensures NoCrlf(l, cr, lf)
  {
  }

  /** Lines, each followed by CR LF. */
  function JoinLines<T>(ls: seq<seq<T>>, cr: T, lf: T): seq<T> {
    if |ls| == 0 then [] else ls[0] + [cr, lf] + JoinLines(ls[1..], cr, lf)
  }

  /** A text cut into its lines with `TakeLine`, as a client reads it. */
  function SplitLines<T(==)>(s: seq<T>, cr: T, lf: T): seq<seq<T>>
    decreases |s|
  {
    if |s| == 0 then []
    else
      var r := TakeLine(s, cr, lf);
      if r.terminated then [r.line] + SplitLines(r.rest, cr, lf) else [r.line]
  }

  /** Reading back CR LF-terminated lines gives the lines. */
  lemma {:induction false} SplitJoinLines<T>(ls: seq<seq<T>>, cr: T, lf: T)
    requires cr != lf
    requires forall k :: 0 <= k < |ls| ==> cr !in ls[k]
    ensures SplitLines(JoinLines(ls, cr, lf), cr, lf) == ls
  {
    if |ls| > 0 {
      var rest := JoinLines(ls[1..], cr, lf);
      TakeLineOfFramed(ls[0], rest, cr, lf);
      SplitJoinLines(ls[1..], cr, lf);
      assert [ls[0]] + ls[1..] == ls;
    }
  }
}
