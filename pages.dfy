/**
 * Choosing the settings page for the item selected in the page list: the
 * item's text with its spaces removed, lower-cased, followed by "Frame",
 * names the frame to show; when no frame has that name the page stays.
 */
module Pages {
  import opened Wrappers
  import Text

  const FrameSuffix := "Frame"

  /** `s` without its space characters. */
  function RemoveSpaces(s: string): (r: string)
    ensures forall i :: 0 <= i < |r| ==> r[i] != ' '
    ensures |r| <= |s|
    decreases |s|
  {
    if s == [] then []
    else if s[0] == ' ' then RemoveSpaces(s[1..])
    else [s[0]] + RemoveSpaces(s[1..])
  }

  /** The object name of the frame that shows the page titled `title`. */
  function FrameName(title: string): (r: string)
    ensures |r| >= |FrameSuffix| && r[|r| - |FrameSuffix|..] == FrameSuffix
    ensures forall i :: 0 <= i < |r| - |FrameSuffix| ==> r[i] != ' ' && !('A' <= r[i] <= 'Z')
  {
    Text.Lower(RemoveSpaces(title)) + FrameSuffix
  }

  lemma {:induction false} RemoveSpacesAppend(a: string, b: string)
    ensures RemoveSpaces(a + b) == RemoveSpaces(a) + RemoveSpaces(b)
    decreases |a|
  {
    if a == [] {
      assert a + b == b;
    } else {
      assert (a + b)[0] == a[0] && (a + b)[1..] == a[1..] + b;
      RemoveSpacesAppend(a[1..], b);
    }
  }

  lemma {:induction false} RemoveSpacesLower(s: string)
    ensures RemoveSpaces(Text.Lower(s)) == Text.Lower(RemoveSpaces(s))
    decreases |s|
  {
    if s != [] {
      assert Text.Lower(s)[1..] == Text.Lower(s[1..]);
      RemoveSpacesLower(s[1..]);
      if s[0] != ' ' {
        assert Text.Lower([s[0]] + RemoveSpaces(s[1..])) == [Text.LowerChar(s[0])] + Text.Lower(RemoveSpaces(s[1..]));
      }
    }
  }

  /** Spaces anywhere in the title do not change the frame name. */
  lemma FrameNameIgnoresSpaces(a: string, b: string)
    ensures FrameName(a + " " + b) == FrameName(a + b)
  {
    RemoveSpacesAppend(a + " ", b);
    RemoveSpacesAppend(a, " ");
    RemoveSpacesAppend(a, b);
  }

  /** Letter case in the title does not change the frame name. */
  lemma FrameNameIgnoresCase(title: string)
    ensures FrameName(Text.Lower(title)) == FrameName(title)
  {
    RemoveSpacesLower(title);
    Text.LowerIdempotent(RemoveSpaces(title));
  }

  /** A string without spaces is its own space-free form. */
  lemma {:induction false} RemoveSpacesOfSpaceless(s: string)
    requires forall i :: 0 <= i < |s| ==> s[i] != ' '
    ensures RemoveSpaces(s) == s
    decreases |s|
  {
    if s != [] {
      RemoveSpacesOfSpaceless(s[1..]);
      assert [s[0]] + s[1..] == s;
    }
  }

  /**
   * A title already without spaces and upper-case letters names its frame
   * as itself followed by "Frame": every character survives, in order.
   */
  lemma FrameNameOfPlainTitle(title: string)
    requires forall i :: 0 <= i < |title| ==> title[i] != ' ' && !('A' <= title[i] <= 'Z')
    ensures FrameName(title) == title + FrameSuffix
  {
    RemoveSpacesOfSpaceless(title);
    assert Text.Lower(title) == title;
  }

  /** The first frame called `name`, if any. */
  function FindFrame(frames: seq<string>, name: string): (r: Option<nat>)
    ensures r.Some? ==> r.value < |frames| && frames[r.value] == name &&
                        forall j :: 0 <= j < r.value ==> frames[j] != name
    ensures r.None? ==> name !in frames
    decreases |frames|
  {
    if frames == [] then None
    else if frames[0] == name then Some(0)
    else match FindFrame(frames[1..], name)
      case Some(k) => Some(k + 1)
      case None => None
  }

  /** The page shown once the item titled `title` becomes current. */
  function SelectedPage(frames: seq<string>, title: string, page: int): (r: int)
    ensures FrameName(title) in frames ==> 0 <= r < |frames| && frames[r] == FrameName(title)
    ensures FrameName(title) !in frames ==> r == page
  {
    match FindFrame(frames, FrameName(title))
    case Some(k) => k
    case None => page
  }
}
