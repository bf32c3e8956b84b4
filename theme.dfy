/** Button-colour sanitising (`app/utils/theme.py`): the six-digit `#RRGGBB`
    form of the hex colour notation of section 5.2 of CSS Color Module Level 4. */
module Theme {
  import opened Basics
  import opened Text

  predicate IsHexDigit(c: char) {
    ('0' <= c <= '9') || ('a' <= c <= 'f') || ('A' <= c <= 'F')
  }

  /** `HEX_COLOR_RE.fullmatch(s)`: `#` followed by exactly six hex digits. */
  predicate IsHexColor(s: string) {
    |s| == 7 && s[0] == '#' && forall k :: 1 <= k < 7 ==> IsHexDigit(s[k])
  }

  /** A hex colour with no upper-case letter. */
  predicate IsLowerHexColor(s: string) {
    IsHexColor(s) && forall k :: 0 <= k < |s| ==> !('A' <= s[k] <= 'Z')
  }

  /** `BUTTON_COLOR_DEFAULTS`, in its key order. */
  const BUTTON_COLOR_DEFAULTS: seq<(string, string)> := [
    ("ui_btn_primary", "#0d6efd"),
    ("ui_btn_secondary", "#6c757d"),
    ("ui_btn_success", "#198754"),
    ("ui_btn_warning", "#ffc107"),
    ("ui_btn_danger", "#dc3545")
  ]

  /** `sanitize_hex_color(value, fallback)`. */
  function SanitizeHexColor(value: Option<string>, fallback: string): (r: string)
    ensures r == fallback || IsLowerHexColor(r)
  {
    if !Given(value) then fallback
    else
      var cleaned := Trim(value.value);
      if IsHexColor(cleaned) then LowerAscii(cleaned) else fallback
  }

  /** A missing or empty value, or one that is only whitespace, gives the
      fallback; a value that is a hex colour once trimmed comes back trimmed and
      lower-cased; anything else gives the fallback. */
  lemma SanitizeHexColorSpec(value: Option<string>, fallback: string)
    ensures !Given(value) ==> SanitizeHexColor(value, fallback) == fallback
    ensures value.Some? && (forall k :: 0 <= k < |value.value| ==> IsSpace(value.value[k])) ==>
      SanitizeHexColor(value, fallback) == fallback
    ensures Given(value) && IsHexColor(Trim(value.value)) ==>
      var r, c := SanitizeHexColor(value, fallback), Trim(value.value);
      |r| == 7 && forall k :: 0 <= k < 7 ==> r[k] == LowerChar(c[k])
    ensures Given(value) && !IsHexColor(Trim(value.value)) ==> SanitizeHexColor(value, fallback) == fallback
  {
    if value.Some? {
      TrimSpec(value.value);
    }
  }

  /** A lower-case hex colour is returned as it is. */
  lemma SanitizeLowerHexColor(s: string, fallback: string)
    requires IsLowerHexColor(s)
    ensures SanitizeHexColor(Some(s), fallback) == s
  {
    assert !IsSpace(s[0]) by { assert s[0] == '#'; }
    assert !IsSpace(s[6]) by { assert IsHexDigit(s[6]); }
    TrimUnchanged(s);
    var l := LowerAscii(s);
    forall k | 0 <= k < |s| ensures l[k] == s[k] {
      assert LowerChar(s[k]) == s[k];
    }
    assert l == s;
  }

  /** Every default is a lower-case hex colour, and the keys are distinct. */
  lemma ButtonDefaultsValid()
    ensures forall i :: 0 <= i < |BUTTON_COLOR_DEFAULTS| ==> IsLowerHexColor(BUTTON_COLOR_DEFAULTS[i].1)
    ensures forall i, j :: 0 <= i < j < |BUTTON_COLOR_DEFAULTS| ==> BUTTON_COLOR_DEFAULTS[i].0 != BUTTON_COLOR_DEFAULTS[j].0
  {
  }

  /** With a valid lower-case fallback, sanitising is idempotent. */
  lemma SanitizeIdempotent(value: Option<string>, fallback: string)
    requires IsLowerHexColor(fallback)
    ensures var r := SanitizeHexColor(value, fallback);
      SanitizeHexColor(Some(r), fallback) == r
  {
    SanitizeLowerHexColor(SanitizeHexColor(value, fallback), fallback);
  }
}
