/**
 The text that generate_page produces for a video: the embed markup of the
 website with every `%VIDEO_ID%` placeholder replaced by the video id,
 wrapped in a fixed HTML skeleton and written to a temporary file, and the
 `file:///` URI returned for that file.

 Strings stand for C strings; `Strlen` models strlen on a buffer that may
 hold a NUL.
 */
module Page {

  datatype Option<T> = None | Some(value: T)

  /** A supported video site: its id, the URL pattern with a `video_id` group,
      and the embed markup that holds the placeholder. */
  datatype Website = Website(id: string, regex: string, embed: string)

  /** What generate_page leaves behind: the text of the temporary file and the
      URI it returns. */
  datatype Generated = Generated(content: string, uri: string)

  const NUL: char := '\0'
  const Header: string := "<html>\n<head></head>\n<body>\n"
  const Footer: string := "\n</body>\n</html>"
  /** The byte counts passed to write() for the header and the footer. */
  const HeaderWriteLength: nat := 28
  const FooterWriteLength: nat := 16
  const Placeholder: string := "%VIDEO_ID%"
  const FileScheme: string := "file:///"

  /** strlen: the position of the first NUL, or the whole buffer when there is none. */
  function Strlen(s: string): (n: nat)
    ensures n <= |s| && NUL !in s[..n]
    ensures n < |s| ==> s[n] == NUL
  {
    if s == [] || s[0] == NUL then 0 else 1 + Strlen(s[1..])
  }

  /** The hard-coded write lengths are exactly the lengths of the header and the footer. */
  lemma WriteLengthsMatch()
    ensures |Header| == HeaderWriteLength && |Footer| == FooterWriteLength
  {
  }

  lemma StrlenOfNulFree(s: string)
    requires NUL !in s
    ensures Strlen(s) == |s|
  {
  }

  lemma StrlenOfTerminated(s: string)
    requires NUL !in s
    ensures Strlen(s + [NUL]) == |s|
  {
    var t := s + [NUL];
    assert t[..|s|] == s;
    assert t[|s|] == NUL;
    assert t == t[..|s| + 1];
  }

  /** `pat` occurs in `s` starting at position `i`. */
  predicate OccursAt(s: string, pat: string, i: nat)
  {
    i + |pat| <= |s| && s[i..i + |pat|] == pat
  }

  /**
   g_regex_replace_literal with a pattern made of literal characters: scanning from
   the left, each occurrence of `pat` is replaced by `rep` and the scan resumes after it.
   The result only holds characters of the text and of the replacement.
   */
  function ReplaceLiteral(s: string, pat: string, rep: string): (r: string)
    requires |pat| > 0
    decreases |s|
    ensures forall c :: c in r ==> c in s || c in rep
  {
    if |s| < |pat| then s
    else if OccursAt(s, pat, 0) then rep + ReplaceLiteral(s[|pat|..], pat, rep)
    else [s[0]] + ReplaceLiteral(s[1..], pat, rep)
  }

  /** The first occurrence of `pat` in `s` at or after `from`. */
  function FirstOccurrence(s: string, pat: string, from: nat): (r: Option<nat>)
    decreases |s| - from
    ensures r.Some? ==> from <= r.value && OccursAt(s, pat, r.value)
    ensures r.Some? ==> forall j :: from <= j < r.value ==> !OccursAt(s, pat, j)
    ensures r.None? ==> forall j :: from <= j ==> !OccursAt(s, pat, j)
  {
    if from + |pat| > |s| then None
    else if OccursAt(s, pat, from) then Some(from)
    else FirstOccurrence(s, pat, from + 1)
  }

  /** The pieces of `s` between its leftmost non-overlapping occurrences of `pat`. */
  function Pieces(s: string, pat: string): (ps: seq<string>)
    requires |pat| > 0
    decreases |s|
    ensures |ps| > 0
  {
    match FirstOccurrence(s, pat, 0)
    case None => [s]
    case Some(i) => [s[..i]] + Pieces(s[i + |pat|..], pat)
  }

  /** The pieces `ps` with `sep` between each two of them. */
  function Join(ps: seq<string>, sep: string): string
    requires |ps| > 0
    decreases |ps|
  {
    if |ps| == 1 then ps[0] else ps[0] + sep + Join(ps[1..], sep)
  }

  /** Putting the pattern back between the pieces gives back the original text. */
  lemma {:induction false} PiecesRejoin(s: string, pat: string)
    requires |pat| > 0
    ensures Join(Pieces(s, pat), pat) == s
    decreases |s|
  {
    match FirstOccurrence(s, pat, 0)
    case None =>
    case Some(i) =>
      var rest := s[i + |pat|..];
      JoinAtFirst(s, pat, pat, i);
      PiecesRejoin(rest, pat);
      assert s == s[..i] + s[i..i + |pat|] + rest;
  }

  /** No piece contains the pattern. */
  lemma {:induction false} PiecesAvoidPattern(s: string, pat: string)
    requires |pat| > 0
    ensures forall k, j :: 0 <= k < |Pieces(s, pat)| ==> !OccursAt(Pieces(s, pat)[k], pat, j)
    decreases |s|
  {
    var ps := Pieces(s, pat);
    match FirstOccurrence(s, pat, 0)
    case None =>
    case Some(i) =>
      var rest := s[i + |pat|..];
      PiecesAvoidPattern(rest, pat);
      assert ps == [s[..i]] + Pieces(rest, pat);
      forall k, j: nat | 0 <= k < |ps|
        ensures !OccursAt(ps[k], pat, j)
      {
        if k == 0 {
          if j + |pat| <= i {
            SliceOfPrefix(s, i, j, j + |pat|);
            assert !OccursAt(s, pat, j);
          }
        } else {
          assert ps[k] == Pieces(rest, pat)[k - 1];
        }
      }
  }

  lemma SliceOfPrefix(s: string, i: nat, a: nat, b: nat)
    requires a <= b <= i <= |s|
    ensures s[..i][a..b] == s[a..b]
  {
    forall t | 0 <= t < b - a
      ensures s[..i][a..b][t] == s[a..b][t]
    {
    }
  }

  lemma SliceOfTail(s: string, a: nat, b: nat)
    requires a <= b < |s|
    ensures s[1..][a..b] == s[a + 1..b + 1]
  {
    forall t | 0 <= t < b - a
      ensures s[1..][a..b][t] == s[a + 1..b + 1][t]
    {
    }
  }

  /** Replacement passes over a prefix in which the pattern does not start. */
  lemma {:induction false} ReplaceSkips(s: string, pat: string, rep: string, i: nat)
    requires |pat| > 0 && i <= |s|
    requires forall j :: 0 <= j < i ==> !OccursAt(s, pat, j)
    ensures ReplaceLiteral(s, pat, rep) == s[..i] + ReplaceLiteral(s[i..], pat, rep)
    decreases i
  {
    if i == 0 {
      assert s[i..] == s;
    } else if |s| < |pat| {
      assert s[..i] + s[i..] == s;
    } else {
      assert !OccursAt(s, pat, 0);
      var t := s[1..];
      forall j | 0 <= j < i - 1
        ensures !OccursAt(t, pat, j)
      {
        assert !OccursAt(s, pat, j + 1);
        if j + |pat| <= |t| {
          SliceOfTail(s, j, j + |pat|);
        }
      }
      ReplaceSkips(t, pat, rep, i - 1);
      assert ReplaceLiteral(s, pat, rep) == [s[0]] + ReplaceLiteral(t, pat, rep);
      assert t[i - 1..] == s[i..];
      assert [s[0]] + t[..i - 1] == s[..i];
      AppendAssociates([s[0]], t[..i - 1], ReplaceLiteral(s[i..], pat, rep));
    }
  }

  /**
   Replacing is splitting at the leftmost non-overlapping occurrences and joining the
   pieces with the replacement: every such occurrence is replaced, and nothing else
   changes.
   */
  lemma {:induction false} ReplaceIsJoin(s: string, pat: string, rep: string)
    requires |pat| > 0
    ensures ReplaceLiteral(s, pat, rep) == Join(Pieces(s, pat), rep)
    decreases |s|
  {
    match FirstOccurrence(s, pat, 0)
    case None =>
      ReplaceWithoutOccurrence(s, pat, rep);
    case Some(i) =>
      ReplaceAtFirst(s, pat, rep, i);
      JoinAtFirst(s, pat, rep, i);
      ReplaceIsJoin(s[i + |pat|..], pat, rep);
  }

  /** Replacement copies the text up to the first occurrence, puts the replacement in
      its place and goes on after it. */
  lemma ReplaceAtFirst(s: string, pat: string, rep: string, i: nat)
    requires |pat| > 0 && FirstOccurrence(s, pat, 0) == Some(i)
    ensures ReplaceLiteral(s, pat, rep) == s[..i] + rep + ReplaceLiteral(s[i + |pat|..], pat, rep)
  {
    ReplaceSkips(s, pat, rep, i);
    var tail, rest := s[i..], s[i + |pat|..];
    assert OccursAt(tail, pat, 0) by {
      assert tail[0..|pat|] == s[i..i + |pat|];
    }
    assert tail[|pat|..] == rest;
    assert ReplaceLiteral(tail, pat, rep) == rep + ReplaceLiteral(rest, pat, rep);
    AppendAssociates(s[..i], rep, ReplaceLiteral(rest, pat, rep));
  }

  lemma AppendAssociates<T>(a: seq<T>, b: seq<T>, c: seq<T>)
    ensures a + (b + c) == a + b + c
  {
  }

  /** Joining the pieces puts `sep` where the first occurrence was. */
  lemma JoinAtFirst(s: string, pat: string, sep: string, i: nat)
    requires |pat| > 0 && FirstOccurrence(s, pat, 0) == Some(i)
    ensures Join(Pieces(s, pat), sep) == s[..i] + sep + Join(Pieces(s[i + |pat|..], pat), sep)
  {
    var ps := Pieces(s, pat);
    assert ps == [s[..i]] + Pieces(s[i + |pat|..], pat);
    assert ps[0] == s[..i] && ps[1..] == Pieces(s[i + |pat|..], pat);
  }

  /** Replacing the pattern by itself changes nothing. */
  lemma ReplaceWithItself(s: string, pat: string)
    requires |pat| > 0
    ensures ReplaceLiteral(s, pat, pat) == s
  {
    ReplaceIsJoin(s, pat, pat);
    PiecesRejoin(s, pat);
  }

  /** Text without the pattern is left as it is. */
  lemma ReplaceWithoutOccurrence(s: string, pat: string, rep: string)
    requires |pat| > 0
    requires forall j :: !OccursAt(s, pat, j)
    ensures ReplaceLiteral(s, pat, rep) == s
  {
    ReplaceSkips(s, pat, rep, |s|);
    assert s[..|s|] == s;
    assert s[|s|..] == [];
  }

  /** The buffer g_new(gchar, strlen(filename) + 9) is filled with by the two g_stpcpy calls. */
  function UriBuffer(filename: string): (buf: string)
    ensures |buf| == Strlen(filename) + 9
    ensures Strlen(buf) == |buf| - 1
    ensures buf[..Strlen(buf)] == FileScheme + filename[..Strlen(filename)]
  {
    var copied := FileScheme + filename[..Strlen(filename)];
    assert NUL !in FileScheme;
    StrlenOfTerminated(copied);
    copied + [NUL]
  }

  /**
   videoframes_generate_page once the website's pattern has matched the URL:
   `videoId` is the `video_id` group of that match (None when there was no match),
   `tmpName` the name g_file_open_tmp chose. The result is the content written to the
   temporary file and the returned URI.
   */
  function GeneratePage(website: Website, videoId: Option<string>, tmpName: string): (g: Generated)
    requires videoId.Some?
    requires NUL !in website.embed && NUL !in videoId.value && NUL !in tmpName
    ensures g.content == Header + ReplaceLiteral(website.embed, Placeholder, videoId.value) + Footer
    ensures g.uri == FileScheme + tmpName && |g.uri| == |tmpName| + 8
  {
    var embed := ReplaceLiteral(website.embed, Placeholder, videoId.value);
    StrlenOfNulFree(embed);
    StrlenOfNulFree(tmpName);
    var content := Header[..HeaderWriteLength] + embed[..Strlen(embed)] + Footer[..FooterWriteLength];
    var buf := UriBuffer(tmpName);
    Generated(content, buf[..Strlen(buf)])
  }

  /**
   The page is the header, then the embed markup cut at every placeholder with the video
   id put between the pieces, then the footer; the pieces contain no placeholder and
   rejoined with it give the markup back.
   */
  lemma PageEmbedsVideo(website: Website, videoId: string, tmpName: string)
    requires NUL !in website.embed && NUL !in videoId && NUL !in tmpName
    ensures var ps := Pieces(website.embed, Placeholder);
      && GeneratePage(website, Some(videoId), tmpName).content == Header + Join(ps, videoId) + Footer
      && Join(ps, Placeholder) == website.embed
      && forall k, j :: 0 <= k < |ps| ==> !OccursAt(ps[k], Placeholder, j)
  {
    ReplaceIsJoin(website.embed, Placeholder, videoId);
    PiecesRejoin(website.embed, Placeholder);
    PiecesAvoidPattern(website.embed, Placeholder);
  }
}
