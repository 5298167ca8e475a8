/** The two model forms: `PostForm` edits `text`, `group` and `image` of a
    post, `CommentForm` edits the `text` of a comment. A form is bound only
    when the request carried data (`None` stands for a request without
    any); a text field is stripped of surrounding whitespace, is required
    and may not hold a null character; the group field is optional but must
    name an existing group. */
module Forms {
  import opened Wrappers
  import opened Models

  /** The whitespace characters stripped from the ends of a text field:
      the characters Python's `str.strip()` removes. */
  predicate IsSpace(c: char)
  {
    || c == ' ' || '\t' <= c <= '\r' || '\U{001C}' <= c <= '\U{001F}'
    || c == '\U{0085}' || c == '\U{00A0}' || c == '\U{1680}' || '\U{2000}' <= c <= '\U{200A}'
    || c == '\U{2028}' || c == '\U{2029}' || c == '\U{202F}' || c == '\U{205F}' || c == '\U{3000}'
  }

  function LeadingSpaces(s: string): (k: nat)
    ensures k <= |s|
    ensures forall i :: 0 <= i < k ==> IsSpace(s[i])
    ensures k < |s| ==> !IsSpace(s[k])
  {
    if s == [] || !IsSpace(s[0]) then 0 else 1 + LeadingSpaces(s[1..])
  }

  function TrailingSpaces(s: string): (k: nat)
    ensures k <= |s|
    ensures forall i :: |s| - k <= i < |s| ==> IsSpace(s[i])
    ensures k < |s| ==> !IsSpace(s[|s| - 1 - k])
  {
    if s == [] || !IsSpace(s[|s| - 1]) then 0 else 1 + TrailingSpaces(s[..|s| - 1])
  }

  /** A text field's cleaned value: the submitted text without leading and
      trailing whitespace. It is empty exactly when the text is blank. */
  function Strip(s: string): (r: string)
    ensures r == [] <==> forall i :: 0 <= i < |s| ==> IsSpace(s[i])
    ensures r != [] ==> !IsSpace(r[0]) && !IsSpace(r[|r| - 1])
    ensures var a := LeadingSpaces(s);
      && a + |r| <= |s| && s[a..a + |r|] == r
      && (forall k :: 0 <= k < a ==> IsSpace(s[k]))
      && (forall k :: a + |r| <= k < |s| ==> IsSpace(s[k]))
  {
    var a := LeadingSpaces(s);
    var e := StripEnd(s);
    s[a..e]
  }

  /** Where the cleaned text ends: after the leading spaces, and followed
      by nothing but whitespace. */
  function StripEnd(s: string): (e: nat)
    ensures LeadingSpaces(s) <= e <= |s|
    ensures forall k :: e <= k < |s| ==> IsSpace(s[k])
    ensures LeadingSpaces(s) < e ==> !IsSpace(s[e - 1])
  {
    var a := LeadingSpaces(s);
    var t := s[a..];
    var b := TrailingSpaces(t);
    assert forall k :: |s| - b <= k < |s| ==> s[k] == t[k - a];
    assert a < |s| - b ==> s[|s| - b - 1] == t[|t| - 1 - b];
    |s| - b
  }

  /** Stripping removes only whitespace: a character that is not a space is
      in the cleaned text exactly when it is in the submitted text. */
  lemma StripKeepsText(s: string, c: char)
    requires !IsSpace(c)
    ensures c in Strip(s) <==> c in s
  {
    var r := Strip(s);
    var i := LeadingSpaces(s);
    if c in s {
      var k :| 0 <= k < |s| && s[k] == c;
      assert r[k - i] == c;
    }
  }

  /** Cleaning an already cleaned text changes nothing. */
  lemma StripIdempotent(s: string)
    ensures Strip(Strip(s)) == Strip(s)
  {
    var r := Strip(s);
    assert LeadingSpaces(r) == 0;
    assert TrailingSpaces(r) == 0;
  }

  /** What the image widget submits: no file (keep the current image), the
      "clear" checkbox, or a new upload, named by its blob-store reference. */
  datatype ImageField = NoFile | ClearImage | Upload(image: Image)

  datatype PostData = PostData(text: string, group: Option<nat>, image: ImageField)

  datatype CommentData = CommentData(text: string)

  /** The image a post ends up with once the form is saved. */
  function ApplyImage(current: Option<Image>, field: ImageField): (r: Option<Image>)
    ensures field.NoFile? ==> r == current
    ensures field.ClearImage? ==> r.None?
    ensures field.Upload? ==> r == Some(field.image)
  {
    match field
    case NoFile => current
    case ClearImage => None
    case Upload(img) => Some(img)
  }

  /** `PostForm.is_valid()` and its cleaned data: `None` when the form is
      unbound, the text is blank or holds a null character, or the group is
      not an existing group. */
  function CleanPost(groups: seq<Group>, data: Option<PostData>): (r: Option<PostData>)
    ensures r.Some? <==>
      data.Some? && Strip(data.value.text) != [] && '\0' !in data.value.text
      && (data.value.group.None? || data.value.group.value in GroupIds(groups))
    ensures r.Some? ==> r.value == data.value.(text := Strip(data.value.text))
  {
    match data
    case None => None
    case Some(d) =>
      var text := Strip(d.text);
      StripKeepsText(d.text, '\0');
      if text == [] || '\0' in text then None
      else if d.group.Some? && d.group.value !in GroupIds(groups) then None
      else Some(d.(text := text))
  }

  /** Cleaned post data is valid data: its text is non-blank and already
      stripped, and cleaning it again gives it back unchanged. */
  lemma CleanPostIsValid(groups: seq<Group>, data: Option<PostData>)
    requires CleanPost(groups, data).Some?
    ensures var d := CleanPost(groups, data).value;
      && d.text != [] && !IsSpace(d.text[0]) && !IsSpace(d.text[|d.text| - 1])
      && CleanPost(groups, Some(d)) == Some(d)
  {
    StripIdempotent(data.value.text);
  }

  /** `CommentForm.is_valid()` and its cleaned text. */
  function CleanComment(data: Option<CommentData>): (r: Option<string>)
    ensures r.Some? <==>
      && data.Some? && '\0' !in data.value.text
      && exists i :: 0 <= i < |data.value.text| && !IsSpace(data.value.text[i])
    ensures r.Some? ==> r.value != [] && r.value == Strip(data.value.text)
  {
    match data
    case None => None
    case Some(d) =>
      var text := Strip(d.text);
      StripKeepsText(d.text, '\0');
      if text == [] || '\0' in text then None else Some(text)
  }
}
