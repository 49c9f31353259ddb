/** Blanking the comments of Rust source so that offsets and line numbers stay valid. */
module RustSource {
  import opened Common

  /** The first newline at or after `i`, or the end. */
  function LineEnd(s: string, i: nat): (e: nat)
    requires i <= |s|
    ensures i <= e <= |s|
    decreases |s| - i
  {
    if i == |s| || s[i] == '\n' then i else LineEnd(s, i + 1)
  }

  predicate Closes(s: string, i: nat)
  {
    i + 2 <= |s| && s[i] == '*' && s[i + 1] == '/'
  }

  /** The end of the first closing mark at or after `i`. */
  function BlockEnd(s: string, i: nat): (e: Option<nat>)
    requires i <= |s|
    ensures e.Some? ==> i < e.value <= |s|
    decreases |s| - i
  {
    if i == |s| then None
    else if Closes(s, i) then Some(i + 2)
    else BlockEnd(s, i + 1)
  }

  /** What the comment pattern matches at `i`: a line comment, or a block comment that is closed. */
  function CommentEnd(s: string, i: nat): (e: Option<nat>)
    requires i < |s|
    ensures e.Some? ==> i < e.value <= |s|
  {
    if s[i] != '/' || i + 1 == |s| then None
    else if s[i + 1] == '/' then Some(LineEnd(s, i + 2))
    else if s[i + 1] == '*' then BlockEnd(s, i + 2)
    else None
  }

  function BlankChar(c: char): char
  {
    if c == '\n' then c else ' '
  }

  function Blank(s: string): (r: string)
    ensures |r| == |s|
    ensures forall i :: 0 <= i < |s| ==> r[i] == BlankChar(s[i])
  {
    seq(|s|, i requires 0 <= i < |s| => BlankChar(s[i]))
  }

  /** The text from `i` on with every comment blanked, matches taken from left to right. */
  function StripFrom(s: string, i: nat): (r: string)
    requires i <= |s|
    ensures |r| == |s| - i
    decreases |s| - i
  {
    if i == |s| then ""
    else match CommentEnd(s, i)
      case None => [s[i]] + StripFrom(s, i + 1)
      case Some(e) => Blank(s[i..e]) + StripFrom(s, e)
  }

  function StripRustComments(s: string): (r: string)
    ensures |r| == |s|
  {
    StripFrom(s, 0)
  }

  // ----- What a comment is ------------------------------------------------------------------

  /** `s[i..e]` is a line comment: from two slashes up to the next newline or the end. */
  ghost predicate IsLineComment(s: string, i: nat, e: nat)
  {
    && i + 2 <= e <= |s| && s[i] == '/' && s[i + 1] == '/'
    && (forall k :: i <= k < e ==> s[k] != '\n') && (e == |s| || s[e] == '\n')
  }

  /** `s[i..e]` is a block comment: up to the first closing mark behind its opening mark. */
  ghost predicate IsBlockComment(s: string, i: nat, e: nat)
  {
    && i + 4 <= e <= |s| && s[i] == '/' && s[i + 1] == '*' && s[e - 2] == '*' && s[e - 1] == '/'
    && forall k :: i + 2 <= k < e - 2 ==> !(s[k] == '*' && s[k + 1] == '/')
  }

  lemma {:induction false} LineEndExactly(s: string, i: nat)
    requires i <= |s|
    ensures var e := LineEnd(s, i);
            (forall k :: i <= k < e ==> s[k] != '\n') && (e == |s| || s[e] == '\n')
    decreases |s| - i
  {
    if i < |s| && s[i] != '\n' {
      LineEndExactly(s, i + 1);
    }
  }

  lemma {:induction false} BlockEndExactly(s: string, i: nat)
    requires i <= |s|
    ensures match BlockEnd(s, i)
            case None => forall k :: i <= k ==> !Closes(s, k)
            case Some(e) => i + 2 <= e && Closes(s, e - 2) && forall k :: i <= k < e - 2 ==> !Closes(s, k)
    decreases |s| - i
  {
    if i < |s| && !Closes(s, i) {
      BlockEndExactly(s, i + 1);
    }
  }

  /** What the comment pattern matches, from the text alone; there is at most one such end. */
  lemma CommentEndExactly(s: string, i: nat, e: nat)
    requires i < |s|
    ensures CommentEnd(s, i) == Some(e) <==> IsLineComment(s, i, e) || IsBlockComment(s, i, e)
  {
    hide LineEnd, BlockEnd;
    if i + 1 < |s| && s[i] == '/' {
      if s[i + 1] == '/' {
        LineEndExactly(s, i + 2);
      } else if s[i + 1] == '*' {
        BlockEndExactly(s, i + 2);
        forall k: nat | k + 2 <= |s|
          ensures Closes(s, k) <==> s[k] == '*' && s[k + 1] == '/'
        {
        }
      }
    }
  }

  // ----- Which characters are inside comments ---------------------------------------------

  /** Position `k` lies in a comment, for a scan that stands at `i`. */
  predicate Commented(s: string, i: nat, k: nat)
    requires i <= k < |s|
    decreases |s| - i
  {
    match CommentEnd(s, i)
    case None => i < k && Commented(s, i + 1, k)
    case Some(e) => k < e || Commented(s, e, k)
  }

  datatype Span = Span(start: nat, end: nat)

  ghost predicate IsComment(s: string, c: Span)
  {
    IsLineComment(s, c.start, c.end) || IsBlockComment(s, c.start, c.end)
  }

  ghost predicate InSome(spans: seq<Span>, k: nat)
  {
    exists j :: 0 <= j < |spans| && spans[j].start <= k < spans[j].end
  }

  /** The comments found from `from` on, taken from left to right without overlap: every place where
      a comment would begin lies in a listed one. */
  ghost predicate IsCommentList(s: string, spans: seq<Span>, from: nat)
  {
    && (forall j :: 0 <= j < |spans| ==> from <= spans[j].start && IsComment(s, spans[j]))
    && (forall j, l :: 0 <= j < l < |spans| ==> spans[j].end <= spans[l].start)
    && (forall i, e :: from <= i && IsComment(s, Span(i, e)) ==> InSome(spans, i))
  }

  lemma InSomeStep(spans: seq<Span>, k: nat)
    requires spans != []
    ensures InSome(spans, k) <==> spans[0].start <= k < spans[0].end || InSome(spans[1..], k)
  {
    if InSome(spans[1..], k) {
      var j :| 0 <= j < |spans[1..]| && spans[1..][j].start <= k < spans[1..][j].end;
      assert spans[j + 1] == spans[1..][j];
    } else if InSome(spans, k) {
      var j :| 0 <= j < |spans| && spans[j].start <= k < spans[j].end;
      assert j > 0 ==> spans[1..][j - 1] == spans[j];
    }
  }

  lemma CommentLonger(s: string, c: Span)
    requires IsComment(s, c)
    ensures c.start + 2 <= c.end <= |s|
  {
  }

  /** A listed comment that begins at `from` is the first; the others are listed behind it. */
  lemma ListHead(s: string, spans: seq<Span>, from: nat, e: nat)
    requires from < |s| && IsCommentList(s, spans, from) && CommentEnd(s, from) == Some(e)
    ensures spans != [] && spans[0] == Span(from, e) && IsCommentList(s, spans[1..], e)
  {
    hide CommentEnd, IsComment;
    CommentIs(s, from, e);
    ListStart(s, spans, from, e);
    CommentIs(s, from, spans[0].end);
    var rest := spans[1..];
    forall l | 0 <= l < |rest|
      ensures rest[l] == spans[l + 1]
    {
    }
    forall i: nat, f: nat | e <= i && IsComment(s, Span(i, f))
      ensures InSome(rest, i)
    {
      InSomeStep(spans, i);
    }
  }

  lemma ListStart(s: string, spans: seq<Span>, from: nat, e: nat)
    requires IsCommentList(s, spans, from) && IsComment(s, Span(from, e))
    ensures spans != [] && spans[0].start == from
  {
    hide IsComment;
    assert InSome(spans, from);
    var j :| 0 <= j < |spans| && spans[j].start <= from < spans[j].end;
    CommentLonger(s, spans[0]);
    assert forall l :: 0 < l < |spans| ==> spans[0].end <= spans[l].start;
  }

  lemma ListSkip(s: string, spans: seq<Span>, from: nat)
    requires from < |s| && IsCommentList(s, spans, from) && CommentEnd(s, from) == None
    ensures IsCommentList(s, spans, from + 1) && !InSome(spans, from)
  {
    hide CommentEnd, IsLineComment, IsBlockComment;
    forall j | 0 <= j < |spans|
      ensures from + 1 <= spans[j].start
    {
      CommentLonger(s, spans[j]);
      CommentEndExactly(s, from, spans[j].end);
    }
  }

  /** A character is commented if and only if it lies in a listed comment, for any such list. */
  lemma {:induction false} CommentedExactly(s: string, spans: seq<Span>, from: nat, k: nat)
    requires from <= k < |s| && IsCommentList(s, spans, from)
    ensures Commented(s, from, k) <==> InSome(spans, k)
    decreases |s| - from
  {
    hide CommentEnd, IsCommentList, InSome;
    match CommentEnd(s, from)
    case None =>
      ListSkip(s, spans, from);
      if from < k {
        CommentedExactly(s, spans, from + 1, k);
      }
    case Some(e) =>
      ListHead(s, spans, from, e);
      InSomeStep(spans, k);
      if e <= k {
        CommentedExactly(s, spans[1..], e, k);
      }
  }

  /** The comments as the scan meets them. */
  function Comments(s: string, i: nat): seq<Span>
    requires i <= |s|
    decreases |s| - i
  {
    if i == |s| then []
    else match CommentEnd(s, i)
      case None => Comments(s, i + 1)
      case Some(e) => [Span(i, e)] + Comments(s, e)
  }

  lemma ListCons(s: string, rest: seq<Span>, from: nat, e: nat)
    requires from < |s| && CommentEnd(s, from) == Some(e) && IsCommentList(s, rest, e)
    ensures IsCommentList(s, [Span(from, e)] + rest, from)
  {
    hide CommentEnd, IsLineComment, IsBlockComment, IsComment, InSome;
    assert IsComment(s, Span(from, e)) by { CommentIs(s, from, e); }
    CommentLonger(s, Span(from, e));
    var spans := [Span(from, e)] + rest;
    forall l | 0 < l < |spans|
      ensures spans[l] == rest[l - 1]
    {
    }
    forall i: nat, f: nat | from <= i && IsComment(s, Span(i, f))
      ensures InSome(spans, i)
    {
      assert spans[0] == Span(from, e) && spans[1..] == rest;
      InSomeStep(spans, i);
    }
  }

  lemma CommentIs(s: string, i: nat, e: nat)
    requires i < |s|
    ensures CommentEnd(s, i) == Some(e) <==> IsComment(s, Span(i, e))
  {
    hide CommentEnd, IsLineComment, IsBlockComment;
    CommentEndExactly(s, i, e);
  }

  lemma ListLater(s: string, spans: seq<Span>, from: nat)
    requires from < |s| && CommentEnd(s, from) == None && IsCommentList(s, spans, from + 1)
    ensures IsCommentList(s, spans, from)
  {
    hide CommentEnd, IsLineComment, IsBlockComment;
    forall f: nat {:trigger IsComment(s, Span(from, f))}
      ensures !IsComment(s, Span(from, f))
    {
      CommentEndExactly(s, from, f);
    }
  }

  lemma NothingListed(s: string)
    ensures IsCommentList(s, [], |s|)
  {
    forall i: nat, e: nat | IsComment(s, Span(i, e))
      ensures i < |s|
    {
      CommentLonger(s, Span(i, e));
    }
  }

  /** There always is such a list. */
  lemma {:induction false} CommentsListed(s: string, i: nat)
    requires i <= |s|
    ensures IsCommentList(s, Comments(s, i), i)
    decreases |s| - i
  {
    hide CommentEnd, IsCommentList;
    if i == |s| {
      NothingListed(s);
    } else {
      match CommentEnd(s, i)
      case None => CommentsListed(s, i + 1); ListLater(s, Comments(s, i + 1), i);
      case Some(e) => CommentsListed(s, e); ListCons(s, Comments(s, e), i, e);
    }
  }

  /** Exactly the commented characters are blanked; newlines always stay. */
  lemma {:induction false} StrippedChar(s: string, i: nat, k: nat)
    requires i <= k < |s|
    ensures StripFrom(s, i)[k - i] == if Commented(s, i, k) then BlankChar(s[k]) else s[k]
    decreases |s| - i
  {
    hide Blank, CommentEnd;
    match CommentEnd(s, i)
    case None =>
      if i < k {
        StrippedChar(s, i + 1, k);
      }
    case Some(e) =>
      if e <= k {
        StrippedChar(s, e, k);
      }
  }

  /** Offsets and newlines are preserved. */
  lemma NewlinesKept(s: string, k: nat)
    requires k < |s|
    ensures StripRustComments(s)[k] == '\n' <==> s[k] == '\n'
    ensures StripRustComments(s)[k] in {s[k], ' '}
  {
    StrippedChar(s, 0, k);
  }

  /** No comment starts at a character outside comments. */
  lemma {:induction false} NoneStartsOutside(s: string, i: nat, k: nat)
    requires i <= k < |s| && !Commented(s, i, k)
    ensures CommentEnd(s, k) == None
    decreases |s| - i
  {
    hide CommentEnd;
    match CommentEnd(s, i)
    case None =>
      if i < k {
        NoneStartsOutside(s, i + 1, k);
      }
    case Some(e) => NoneStartsOutside(s, e, k);
  }

  lemma {:induction false} BlockEndFinds(s: string, i: nat, k: nat)
    requires i <= k && Closes(s, k)
    ensures BlockEnd(s, i).Some?
    decreases k - i
  {
    if i < k && !Closes(s, i) {
      BlockEndFinds(s, i + 1, k);
    }
  }

  lemma {:induction false} BlockEndAt(s: string, i: nat)
    requires i <= |s| && BlockEnd(s, i).Some?
    ensures BlockEnd(s, i).value >= i + 2 && Closes(s, BlockEnd(s, i).value - 2)
    decreases |s| - i
  {
    if !Closes(s, i) {
      BlockEndAt(s, i + 1);
    }
  }

  /** A mark of a comment that survives is where it was, outside every comment. */
  lemma SurvivingChar(s: string, k: nat)
    requires k < |s| && StripRustComments(s)[k] in {'/', '*'}
    ensures s[k] == StripRustComments(s)[k] && !Commented(s, 0, k)
  {
    StrippedChar(s, 0, k);
  }

  /** Nothing that the comment pattern matches is left. */
  lemma NoCommentLeft(s: string, k: nat)
    requires k < |s|
    ensures CommentEnd(StripRustComments(s), k) == None
  {
    hide StripRustComments, Commented, LineEnd, BlockEnd;
    var r := StripRustComments(s);
    if CommentEnd(r, k).Some? {
      SurvivingChar(s, k);
      SurvivingChar(s, k + 1);
      NoneStartsOutside(s, 0, k);
      if r[k + 1] == '*' {
        BlockEndAt(r, k + 2);
        var e := BlockEnd(r, k + 2).value;
        SurvivingChar(s, e - 2);
        SurvivingChar(s, e - 1);
        BlockEndFinds(s, k + 2, e - 2);
      }
    }
  }

  lemma {:induction false} NothingToStrip(s: string, i: nat)
    requires i <= |s| && forall k :: i <= k < |s| ==> CommentEnd(s, k) == None
    ensures StripFrom(s, i) == s[i..]
    decreases |s| - i
  {
    hide CommentEnd;
    if i < |s| {
      NothingToStrip(s, i + 1);
    }
  }

  /** Stripping twice is stripping once. */
  lemma StripIdempotent(s: string)
    ensures StripRustComments(StripRustComments(s)) == StripRustComments(s)
  {
    hide CommentEnd;
    var r := StripRustComments(s);
    forall k: nat | k < |r|
      ensures CommentEnd(r, k) == None
    {
      NoCommentLeft(s, k);
    }
    NothingToStrip(r, 0);
  }
}
