/**
 * The URL helpers of the view tests (class UrlViewData, written twice, in
 * posts/tests/test_data.py and posts/tests/class_url.py; the helpers both
 * define have the same bodies, and only class_url.py has the login URL and
 * `get_redirect_to_login`):
 * substituting a post id or a username for a placeholder in a URL template,
 * the `?page=` suffix of a feed URL, the login redirect with `?next=`, and the
 * keyword arguments parsed from the `kwargs` text.
 */
module UrlView {
  import opened Wrappers
  import opened Text

  /** A Python value handed to `str(...)`: None, an int (a post id) or a str (a username). */
  datatype PyValue = PyNone | PyInt(i: int) | PyStr(s: string)

  /** `str(value)`. */
  function Str(v: PyValue): string
  {
    match v
    case PyNone => "None"
    case PyInt(i) => IntToString(i)
    case PyStr(s) => s
  }

  /** `str(o)` for an optional string (an f-string of None gives "None"). */
  function StrOpt(o: Option<string>): string
  {
    match o
    case None => "None"
    case Some(s) => s
  }

  const IdMask: string := "<id>"
  const UsernameMask: string := "<username>"

  /** One URL under test: its template, route name, template file, expected redirect and kwargs text. */
  datatype UrlViewData = UrlViewData(
    url: string,
    name: Option<string>,
    template: Option<string>,
    redirect: Option<string>,
    accessedAuthorisedClient: bool,
    status: int,
    kwargs: Option<string>)

  /** The attributes the helpers substitute into (both always present on the dataclass). */
  datatype Field = UrlField | RedirectField

  function Attr(v: UrlViewData, field: Field): Option<string>
  {
    match field
    case UrlField => Some(v.url)
    case RedirectField => v.redirect
  }

  /**
   * `_get_attr_with_mask`: the attribute with every `mask` replaced by
   * `str(value)`, or None when the attribute is None. Its other guard,
   * `id is None`, tests Python's builtin `id`, which is never None, so a None
   * value is substituted like any other, as the text "None".
   */
  function AttrWithMask(v: UrlViewData, field: Field, mask: string, value: PyValue): (r: Option<string>)
    ensures r.None? <==> field == RedirectField && v.redirect.None?
  {
    match Attr(v, field)
    case None => None
    case Some(attr) => Some(ReplaceAll(attr, mask, Str(value)))
  }

  /** `get_url_with_id`. */
  function UrlWithId(v: UrlViewData, id: PyValue): (r: Option<string>)
    ensures r.Some?
  {
    AttrWithMask(v, UrlField, IdMask, id)
  }

  /** `get_url_with_username`. */
  function UrlWithUsername(v: UrlViewData, username: PyValue): (r: Option<string>)
    ensures r.Some?
  {
    AttrWithMask(v, UrlField, UsernameMask, username)
  }

  /** `get_redirect_with_id`. */
  function RedirectWithId(v: UrlViewData, id: PyValue): (r: Option<string>)
    ensures r.None? <==> v.redirect.None?
  {
    AttrWithMask(v, RedirectField, IdMask, id)
  }

  /** `get_redirect_to_login`: the login URL (an opaque route) with the masked URL as `next`. */
  function RedirectToLogin(v: UrlViewData, loginUrl: string, id: PyValue): (r: string)
    ensures loginUrl + "?next=" <= r
  {
    loginUrl + "?next=" + StrOpt(UrlWithId(v, id))
  }

  /** `get_last_page_url`: the URL with a `page` query parameter. */
  function LastPageUrl(v: UrlViewData, pageNum: int): (r: string)
    ensures v.url + "?page=" <= r
    ensures |r| > |v.url| + 6
  {
    v.url + "?page=" + IntToString(pageNum)
  }

  /** The keyword arguments `get_url_from_name` hands to `reverse`. */
  datatype ReverseArgs = NoKwargs | Kwarg(key: string, value: string)

  /** The kwargs text after substituting the id and deleting every space. */
  function CleanKwargs(kwargs: string, id: PyValue): string
  {
    ReplaceAll(ReplaceAll(kwargs, IdMask, Str(id)), " ", "")
  }

  /**
   * The kwargs parsing of `get_url_from_name` (`reverse` itself is not
   * modelled): no kwargs when the id or the kwargs text is None; otherwise the
   * cleaned text split on ':' must give exactly a key and a value, or
   * `dict([...])` raises ValueError.
   */
  function UrlKwargs(v: UrlViewData, id: PyValue): (r: Result<ReverseArgs>)
    ensures id.PyNone? || v.kwargs.None? ==> r == Ok(NoKwargs)
    ensures r.Err? ==> r.error == "ValueError"
    ensures r.Ok? && r.value.Kwarg? ==> ':' !in r.value.key && ':' !in r.value.value
  {
    if id.PyNone? || v.kwargs.None? then Ok(NoKwargs)
    else
      var parts := Split(CleanKwargs(v.kwargs.value, id), ':');
      if |parts| == 2 then Ok(Kwarg(parts[0], parts[1]))
      else Err("ValueError")
  }

  /** A character absent from the input and the replacement is absent from the result. */
  lemma {:induction false} ReplaceKeepsCharOut(s: string, pat: string, rep: string, c: char)
    requires c !in s && c !in rep
    ensures c !in ReplaceAll(s, pat, rep)
    decreases |s|
  {
    if |pat| == 0 {
      if s != [] {
        ReplaceKeepsCharOut(s[1..], pat, rep, c);
      }
    } else if |s| >= |pat| {
      if s[..|pat|] == pat {
        ReplaceKeepsCharOut(s[|pat|..], pat, rep, c);
      } else {
        ReplaceKeepsCharOut(s[1..], pat, rep, c);
      }
    }
  }

  lemma NoOccurrenceInShort(pat: string, s: string)
    requires |s| < |pat|
    ensures !Occurs(pat, s)
  {
  }

  /** A URL without the placeholder is returned unchanged, whatever the value. */
  lemma UrlWithoutMaskUnchanged(v: UrlViewData, value: PyValue)
    ensures !Occurs(IdMask, v.url) ==> UrlWithId(v, value) == Some(v.url)
    ensures !Occurs(UsernameMask, v.url) ==> UrlWithUsername(v, value) == Some(v.url)
  {
    if !Occurs(IdMask, v.url) {
      ReplaceAbsent(v.url, IdMask, Str(value));
    }
    if !Occurs(UsernameMask, v.url) {
      ReplaceAbsent(v.url, UsernameMask, Str(value));
    }
  }

  /** A template with one `<id>` gets `str(id)` in its place and keeps the rest. */
  lemma UrlWithIdSubstitutes(v: UrlViewData, a: string, b: string, id: PyValue)
    requires v.url == a + IdMask + b && '<' !in a && !Occurs(IdMask, b)
    ensures UrlWithId(v, id) == Some(a + Str(id) + b)
  {
    ReplaceSingle(a, b, IdMask, Str(id));
  }

  /** A template with one `<username>` gets `str(username)` in its place and keeps the rest. */
  lemma UrlWithUsernameSubstitutes(v: UrlViewData, a: string, b: string, username: PyValue)
    requires v.url == a + UsernameMask + b && '<' !in a && !Occurs(UsernameMask, b)
    ensures UrlWithUsername(v, username) == Some(a + Str(username) + b)
  {
    ReplaceSingle(a, b, UsernameMask, Str(username));
  }

  /**
   * No redirect gives None; a redirect template with one `<id>` gets
   * `str(id)` in its place.
   */
  lemma RedirectWithIdSubstitutes(v: UrlViewData, a: string, b: string, id: PyValue)
    ensures v.redirect.None? <==> RedirectWithId(v, id).None?
    ensures v.redirect == Some(a + IdMask + b) && '<' !in a && !Occurs(IdMask, b)
        ==> RedirectWithId(v, id) == Some(a + Str(id) + b)
  {
    if v.redirect == Some(a + IdMask + b) && '<' !in a && !Occurs(IdMask, b) {
      ReplaceSingle(a, b, IdMask, Str(id));
    }
  }

  /**
   * The guard meant for a missing value never fires: with no id the
   * placeholder is replaced by the text "None" and the URL changes.
   */
  lemma NoneIdIsWrittenOut(v: UrlViewData, a: string, b: string)
    requires v.url == a + IdMask + b && '<' !in a && !Occurs(IdMask, b)
    ensures UrlWithId(v, PyNone) == Some(a + "None" + b)
    ensures UrlWithId(v, PyNone) != Some(v.url)
  {
    ReplaceSingle(a, b, IdMask, "None");
    assert (a + "None" + b)[|a|] == 'N';
    assert (a + IdMask + b)[|a|] == '<';
  }

  /** No placeholder survives an integer id: its digits share no character with `<id>`. */
  lemma IdMaskFullyReplaced(v: UrlViewData, id: int)
    ensures !Occurs(IdMask, UrlWithId(v, PyInt(id)).value)
  {
    var rep := IntToString(id);
    forall k | 0 <= k < |rep| ensures rep[k] !in IdMask {
      assert rep[k] == '-' || '0' <= rep[k] <= '9';
    }
    ReplaceRemovesAll(v.url, IdMask, rep);
  }

  /**
   * No placeholder survives a non-empty username that shares no character
   * with `<username>`.
   */
  lemma UsernameMaskFullyReplaced(v: UrlViewData, username: string)
    requires |username| > 0 && NoSharedChar(username, UsernameMask)
    ensures !Occurs(UsernameMask, UrlWithUsername(v, PyStr(username)).value)
  {
    ReplaceRemovesAll(v.url, UsernameMask, username);
  }

  /**
   * A value without the placeholder is not enough to keep the placeholder
   * out: "<i<id>" with the value "d>" gives "<id>" again.
   */
  lemma MaskCanReappear()
    ensures !Occurs(IdMask, "d>")
    ensures UrlWithId(UrlViewData("<i<id>", None, None, None, false, 200, None), PyStr("d>")) == Some(IdMask)
  {
    NoOccurrenceInShort(IdMask, "d>");
    var s := "<i<id>";
    var r := ReplaceAll(s, IdMask, "d>");
    assert s[..4] != IdMask by { assert s[..4][2] == '<'; }
    assert s[1..] == "i<id>";
    assert r == "<" + ReplaceAll("i<id>", IdMask, "d>");
    ReplaceKeepsHead("i<id>", IdMask, "d>");
    assert "i<id>"[1..] == IdMask;
    assert ReplaceAll("i<id>", IdMask, "d>") == "i" + ReplaceAll(IdMask, IdMask, "d>");
    assert IdMask[..4] == IdMask && IdMask[4..] == [];
    assert ReplaceAll(IdMask, IdMask, "d>") == "d>" + ReplaceAll([], IdMask, "d>");
    assert ReplaceAll([], IdMask, "d>") == [];
    assert r == "<" + ("i" + ("d>" + []));
    assert "<" + ("i" + ("d>" + [])) == IdMask;
    assert Str(PyStr("d>")) == "d>";
  }

  /**
   * The last-page URL splits at its only '?' into the URL and `page=<k>`,
   * and the digits read back as `k`: the paginator receives the page asked for.
   */
  lemma LastPageUrlQuery(v: UrlViewData, k: nat)
    requires '?' !in v.url
    ensures Split(LastPageUrl(v, k), '?') == [v.url, "page=" + NatToString(k)]
    ensures DigitsValue(Split(LastPageUrl(v, k), '?')[1][5..]) == k
  {
    var q := "page=" + NatToString(k);
    assert '?' !in NatToString(k) by {
      var d := NatToString(k);
      forall j | 0 <= j < |d| ensures d[j] != '?' {
        assert '0' <= d[j] <= '9';
      }
    }
    assert LastPageUrl(v, k) == v.url + ['?'] + q;
    SplitAtOnlySep(v.url, q, '?');
    assert q[5..] == NatToString(k);
    DigitsValueOfNatToString(k);
  }

  /**
   * The login redirect splits at its only '?' into the login URL and
   * `next=` followed by the masked URL under test.
   */
  lemma RedirectToLoginNext(v: UrlViewData, loginUrl: string, id: PyValue)
    requires '?' !in loginUrl && '?' !in v.url && '?' !in Str(id)
    ensures Split(RedirectToLogin(v, loginUrl, id), '?') == [loginUrl, "next=" + UrlWithId(v, id).value]
  {
    var masked := UrlWithId(v, id).value;
    ReplaceKeepsCharOut(v.url, IdMask, Str(id), '?');
    assert RedirectToLogin(v, loginUrl, id) == loginUrl + ['?'] + ("next=" + masked);
    SplitAtOnlySep(loginUrl, "next=" + masked, '?');
  }

  /**
   * The parsed kwargs: a key and a value free of ':' and spaces, joined by ':'
   * they give back the cleaned text; any other number of ':' raises.
   */
  lemma {:induction false} UrlKwargsParsing(v: UrlViewData, id: PyValue)
    requires id != PyNone && v.kwargs.Some?
    ensures UrlKwargs(v, id).Ok? <==> multiset(CleanKwargs(v.kwargs.value, id))[':'] == 1
    ensures UrlKwargs(v, id).Ok? ==> UrlKwargs(v, id).value.Kwarg?
    ensures UrlKwargs(v, id).Ok? ==>
      var kw := UrlKwargs(v, id).value;
      && ':' !in kw.key && ':' !in kw.value
      && ' ' !in kw.key && ' ' !in kw.value
      && kw.key + ":" + kw.value == CleanKwargs(v.kwargs.value, id)
  {
    var cleaned := CleanKwargs(v.kwargs.value, id);
    var parts := Split(cleaned, ':');
    assert UrlKwargs(v, id).Ok? <==> |parts| == 2;
    ReplaceByEmptyDeletes(ReplaceAll(v.kwargs.value, IdMask, Str(id)), " ");
    SplitPair(cleaned);
    if |parts| == 2 {
      assert UrlKwargs(v, id) == Ok(Kwarg(parts[0], parts[1]));
    }
  }

  /** A space-free text with one ':' splits into a space-free key and value around it. */
  lemma SplitPair(cleaned: string)
    requires ' ' !in cleaned
    ensures |Split(cleaned, ':')| == 2 ==>
      var parts := Split(cleaned, ':');
      && ' ' !in parts[0] && ' ' !in parts[1]
      && parts[0] + ":" + parts[1] == cleaned
  {
    var parts := Split(cleaned, ':');
    if |parts| == 2 {
      JoinSplit(cleaned, ':');
      assert Join(parts, ':') == parts[0] + [':'] + parts[1];
      assert cleaned == parts[0] + [':'] + parts[1];
      forall j | 0 <= j < |parts[0]| ensures parts[0][j] != ' ' {
        assert parts[0][j] == cleaned[j];
      }
      forall j | 0 <= j < |parts[1]| ensures parts[1][j] != ' ' {
        assert parts[1][j] == cleaned[|parts[0]| + 1 + j];
      }
    }
  }

  /** The post-detail URL of the view tests, with kwargs "post_id: <id>". */
  const PostDetailUrl: UrlViewData :=
    UrlViewData("/posts/<id>/", Some("posts:post_detail"), Some("posts/post_detail.html"),
                None, false, 200, Some("post_id: <id>"))

  /** "post_id: <id>" with id 5 becomes the keyword argument post_id="5". */
  lemma PostDetailKwargs()
    ensures UrlKwargs(PostDetailUrl, PyInt(5)) == Ok(Kwarg("post_id", "5"))
  {
    CleanExample();
    SplitExample();
  }

  lemma CleanExample()
    ensures CleanKwargs("post_id: <id>", PyInt(5)) == "post_id:5"
  {
    assert Str(PyInt(5)) == "5";
    SubstituteExampleId();
    DeleteExampleSpace();
  }

  lemma SplitExample()
    ensures Split("post_id:5", ':') == ["post_id", "5"]
  {
    SplitAtOnlySep("post_id", "5", ':');
    assert "post_id" + [':'] + "5" == "post_id:5";
  }

  lemma SubstituteExampleId()
    ensures ReplaceAll("post_id: <id>", IdMask, "5") == "post_id: 5"
  {
    NoOccurrenceInShort(IdMask, []);
    ReplaceSingle("post_id: ", [], IdMask, "5");
    assert "post_id: " + IdMask + [] == "post_id: <id>";
    assert "post_id: " + "5" + [] == "post_id: 5";
  }

  lemma DeleteExampleSpace()
    ensures ReplaceAll("post_id: 5", " ", []) == "post_id:5"
  {
    NoOccurrenceInShort(" ", []);
    assert !Occurs(" ", "5") by {
      forall i: nat | i <= 1 ensures !OccursAt(" ", "5", i) {
        if i == 0 {
          assert "5"[0..1][0] == '5';
        }
      }
    }
    ReplaceSingle("post_id:", "5", " ", []);
    assert "post_id:" + " " + "5" == "post_id: 5";
    assert "post_id:" + [] + "5" == "post_id:5";
  }
}
