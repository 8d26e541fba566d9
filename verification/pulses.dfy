/**
 The items a pulse viewer displays, and the facts the viewer derives from a
 single item: whether its media is a video or an image, whether its caption is
 shown, and whether the current viewer owns it.
 */
module Pulses {

  /** An optional value; the viewer's identity is `None` when nobody is signed in. */
  datatype Option<+T> = None | Some(value: T)

  /** One short-lived media post. Its creation timestamp is never read by the
      viewer and is not part of the model. */
  datatype Pulse = Pulse(id: string, mediaUrl: string, legenda: string, authorId: string)

  /** The rendering surface chosen for a pulse. */
  datatype Media = Video | Image

  /* ---------------------------------------------------------------------- */
  /* Substring search, as JavaScript's String.prototype.includes             */
  /* ---------------------------------------------------------------------- */

  /** `sub` occurs in `s` starting at position `i`. */
  ghost predicate OccursAt(s: string, sub: string, i: int) {
    0 <= i && i + |sub| <= |s| && s[i..i + |sub|] == sub
  }

  /** `sub` occurs somewhere in `s`: the reference meaning of `includes`. */
  ghost predicate Occurs(s: string, sub: string) {
    exists i :: OccursAt(s, sub, i)
  }

  /** Left-to-right search for `sub` in `s`. */
  function Includes(s: string, sub: string): bool
    decreases |s|
  {
    if |s| < |sub| then false
    else if s[..|sub|] == sub then true
    else Includes(s[1..], sub)
  }

  /** Dropping the first character of `s` shifts every occurrence left by one. */
  lemma OccursAtShift(s: string, sub: string, i: int)
    requires 0 < |s| && 0 <= i
    ensures OccursAt(s[1..], sub, i) <==> OccursAt(s, sub, i + 1)
  {
    if i + 1 + |sub| <= |s| {
      assert s[1..][i..i + |sub|] == s[i + 1..i + 1 + |sub|];
    }
  }

  /** The search finds `sub` exactly when it occurs somewhere in `s`. */
  lemma {:induction false} IncludesIsOccurs(s: string, sub: string)
    ensures Includes(s, sub) <==> Occurs(s, sub)
    decreases |s|
  {
    if |s| < |sub| {
    } else if s[..|sub|] == sub {
      assert OccursAt(s, sub, 0);
    } else {
      IncludesIsOccurs(s[1..], sub);
      if Occurs(s, sub) {
        var i :| OccursAt(s, sub, i);
        assert s[0..|sub|] == s[..|sub|];
        assert i != 0;
        OccursAtShift(s, sub, i - 1);
      }
      if Occurs(s[1..], sub) {
        var j :| OccursAt(s[1..], sub, j);
        OccursAtShift(s, sub, j);
      }
    }
  }

  /* ---------------------------------------------------------------------- */
  /* What the viewer derives from one pulse                                  */
  /* ---------------------------------------------------------------------- */

  /** A pulse is played as a video when its URL mentions a video container
      extension anywhere, and shown as an image otherwise: a URL in which
      neither `.mp4` nor `.webm` occurs is always an image. */
  function Classify(p: Pulse): (m: Media)
    ensures m == Video <==> Occurs(p.mediaUrl, ".mp4") || Occurs(p.mediaUrl, ".webm")
  {
    IncludesIsOccurs(p.mediaUrl, ".mp4");
    IncludesIsOccurs(p.mediaUrl, ".webm");
    if Includes(p.mediaUrl, ".mp4") || Includes(p.mediaUrl, ".webm") then Video else Image
  }

  /** The extension need not be a suffix: text on either side of it (a query
      string, a second extension) does not change the classification. */
  lemma {:induction false} ExtensionAnywhereIsVideo(p: Pulse, before: string, ext: string, after: string)
    requires ext == ".mp4" || ext == ".webm"
    requires p.mediaUrl == before + ext + after
    ensures Classify(p) == Video
  {
    assert p.mediaUrl[|before|..|before| + |ext|] == ext;
    assert OccursAt(p.mediaUrl, ext, |before|);
  }

  /** The caption overlay is shown exactly when the caption is non-empty
      (the empty string is the only falsy string). */
  function ShowsCaption(p: Pulse): (shown: bool)
    ensures shown <==> |p.legenda| > 0
  {
    p.legenda != ""
  }

  /** The viewer owns a pulse exactly when someone is signed in and their id is
      the pulse's author id; with nobody signed in, nobody owns anything. */
  function IsOwner(viewer: Option<string>, p: Pulse): (owner: bool)
    ensures owner <==> viewer.Some? && viewer.value == p.authorId
  {
    match viewer
    case None => false
    case Some(uid) => uid == p.authorId
  }
}
