/** The admin theme settings (`app/routes/admin_pages.py`): choosing one of
    the named themes and the five button colours, stored as key/value rows of
    the settings table. */
module AdminPages {
  import opened Basics
  import opened Entities
  import opened Store
  import opened Theme
  import opened Text

  /** The settings key of the chosen theme. */
  const THEME_KEY := "ui_theme"

  /** `THEMES`: each theme's name, label and description. */
  const THEMES: seq<(string, string, string)> := [
    ("classic", "Classic Blue", "Current default look with blue navigation."),
    ("ocean", "Ocean Teal", "Cool teal and slate tones."),
    ("emerald", "Emerald Green", "Green-accented look for admin branding.")
  ]

  /** The theme shown when none (or an unknown one) is stored. */
  const DEFAULT_THEME := "classic"

  /** `name in THEMES`. */
  predicate KnownTheme(name: string) {
    exists i :: 0 <= i < |THEMES| && THEMES[i].0 == name
  }

  const THEME_PAGE: Response := Redirect(303, "/ui/admin/theme")
  const DASHBOARD: Response := Redirect(303, "/dashboard")

  predicate AdminVisitor(user: Option<User>) {
    user.Some? && user.value.role == ADMIN_ROLE
  }

  /** The `key` column is unique. */
  ghost predicate UniqueKeys(settings: seq<AppSetting>) {
    forall i, j :: 0 <= i < j < |settings| ==> settings[i].key != settings[j].key
  }

  /** `.filter(AppSetting.key == key).first()`: the index of the first row with that key. */
  function FirstSetting(settings: seq<AppSetting>, key: string): (r: Option<nat>)
    ensures r.Some? ==> r.value < |settings| && settings[r.value].key == key
    ensures r.Some? ==> forall k :: 0 <= k < r.value ==> settings[k].key != key
    ensures r.None? ==> forall k :: 0 <= k < |settings| ==> settings[k].key != key
  {
    if settings == [] then None
    else if settings[0].key == key then Some(0)
    else
      var r := FirstSetting(settings[1..], key);
      if r.Some? then Some(r.value + 1) else None
  }

  /** `button_map.get(key)`: a dict built row by row keeps the last row with
      the key; a missing key and a null value both read as nothing. */
  function MappedValue(settings: seq<AppSetting>, key: string): (r: Option<string>)
    ensures r.Some? ==> exists k :: 0 <= k < |settings| && settings[k].key == key && settings[k].value == r
  {
    if settings == [] then None
    else if settings[|settings| - 1].key == key then settings[|settings| - 1].value
    else MappedValue(settings[..|settings| - 1], key)
  }

  /** With unique keys the dict and `.first()` read the same row. */
  lemma {:induction false} MappedValueFirst(settings: seq<AppSetting>, key: string)
    requires UniqueKeys(settings)
    ensures FirstSetting(settings, key).None? ==> MappedValue(settings, key).None?
    ensures FirstSetting(settings, key).Some? ==>
      MappedValue(settings, key) == settings[FirstSetting(settings, key).value].value
  {
    if settings != [] {
      var n := |settings| - 1;
      var init := settings[..n];
      assert UniqueKeys(init) by {
        forall i, j | 0 <= i < j < |init| ensures init[i].key != init[j].key {
          assert init[i] == settings[i] && init[j] == settings[j];
        }
      }
      MappedValueFirst(init, key);
      var f := FirstSetting(settings, key);
      if settings[n].key != key {
        if f.Some? {
          assert FirstSetting(init, key).Some? by {
            assert init[f.value].key == key;
          }
        } else {
          assert forall k :: 0 <= k < |init| ==> init[k].key != key by {
            forall k | 0 <= k < |init| ensures init[k].key != key {
              assert init[k] == settings[k];
            }
          }
        }
      }
    }
  }

  // ---------------------------------------------------------------------
  // The form

  /** The value of the first `ui_theme` row: nothing when there is no such
      row or its value is null. */
  function StoredTheme(settings: seq<AppSetting>): (r: Option<string>)
    ensures r.Some? ==> exists k :: 0 <= k < |settings| && settings[k].key == THEME_KEY && settings[k].value == r
    ensures (forall k :: 0 <= k < |settings| ==> settings[k].key != THEME_KEY) ==> r.None?
  {
    var i := FirstSetting(settings, THEME_KEY);
    if i.Some? then settings[i.value].value else None
  }

  /** `current_theme`: the stored theme if it is a known one, else the default. */
  function CurrentTheme(settings: seq<AppSetting>): (r: string)
    ensures KnownTheme(r)
    ensures StoredTheme(settings).Some? && KnownTheme(StoredTheme(settings).value) ==> r == StoredTheme(settings).value
    ensures StoredTheme(settings).None? || !KnownTheme(StoredTheme(settings).value) ==> r == "classic"
  {
    var stored := StoredTheme(settings);
    if stored.Some? && KnownTheme(stored.value) then stored.value
    else
      assert THEMES[0].0 == DEFAULT_THEME;
      DEFAULT_THEME
  }

  /** `button_colors`: each button key with its stored colour, sanitised
      against its default. */
  function ButtonColors(settings: seq<AppSetting>): (r: seq<(string, string)>)
    ensures |r| == |BUTTON_COLOR_DEFAULTS|
    ensures forall i :: 0 <= i < |r| ==> r[i].0 == BUTTON_COLOR_DEFAULTS[i].0
    ensures forall i :: 0 <= i < |r| ==> r[i].1 == BUTTON_COLOR_DEFAULTS[i].1 || IsLowerHexColor(r[i].1)
  {
    seq(|BUTTON_COLOR_DEFAULTS|, i requires 0 <= i < |BUTTON_COLOR_DEFAULTS| =>
      var (key, default) := BUTTON_COLOR_DEFAULTS[i];
      (key, SanitizeHexColor(MappedValue(settings, key), default)))
  }

  /** Each button shows its stored colour, trimmed and lower-cased, when that
      is a hex colour, and its default when no value is stored for it or the
      stored value is not a hex colour. */
  lemma ButtonColorsSpec(settings: seq<AppSetting>, i: int)
    requires 0 <= i < |BUTTON_COLOR_DEFAULTS|
    ensures var key, default := BUTTON_COLOR_DEFAULTS[i].0, BUTTON_COLOR_DEFAULTS[i].1;
      var shown, stored := ButtonColors(settings)[i], MappedValue(settings, key);
      && shown.0 == key
      && ((forall k :: 0 <= k < |settings| ==> settings[k].key != key) ==> shown.1 == default)
      && (stored.None? ==> shown.1 == default)
      && (stored.Some? && IsHexColor(Trim(stored.value)) ==> shown.1 == LowerAscii(Trim(stored.value)))
      && (stored.Some? && !IsHexColor(Trim(stored.value)) ==> shown.1 == default)
  {
  }

  datatype ThemeForm = ThemeForm(currentTheme: string, buttonColors: seq<(string, string)>)

  /** `theme_settings_form`: nothing for a non-admin (who is redirected). */
  function ThemeSettingsForm(settings: seq<AppSetting>, user: Option<User>): (r: Option<ThemeForm>)
    ensures r.Some? <==> AdminVisitor(user)
    ensures r.Some? ==> KnownTheme(r.value.currentTheme)
    ensures r.Some? ==> r.value == ThemeForm(CurrentTheme(settings), ButtonColors(settings))
  {
    if !AdminVisitor(user) then None else Some(ThemeForm(CurrentTheme(settings), ButtonColors(settings)))
  }

  // ---------------------------------------------------------------------
  // The submission

  /** Set `key` to `value`: update the first row with the key, or add a row
      with the next free id. */
  function Upsert(settings: seq<AppSetting>, key: string, value: string): seq<AppSetting> {
    var i := FirstSetting(settings, key);
    if i.Some? then settings[i.value := settings[i.value].(value := Some(value))]
    else settings + [AppSetting(NextId(settings, (s: AppSetting) => s.id), key, Some(value))]
  }

  /** Upserting keeps every row and its key in place, changes only rows with
      the key, and adds a row (with the key) only when none had it. */
  lemma UpsertShape(settings: seq<AppSetting>, key: string, value: string)
    ensures var r := Upsert(settings, key, value);
      && (FirstSetting(settings, key).Some? ==> |r| == |settings|)
      && (FirstSetting(settings, key).None? ==> |r| == |settings| + 1 && r[|settings|].key == key)
      && (forall k :: 0 <= k < |settings| && settings[k].key != key ==> r[k] == settings[k])
      && (forall k :: 0 <= k < |settings| ==> r[k].key == settings[k].key)
  {
  }

  /** Upserting keeps keys unique and `.first()` then finds the stored value. */
  lemma UpsertStores(settings: seq<AppSetting>, key: string, value: string)
    requires UniqueKeys(settings)
    ensures var r := Upsert(settings, key, value);
      && UniqueKeys(r)
      && FirstSetting(r, key).Some? && r[FirstSetting(r, key).value].value == Some(value)
  {
    var r := Upsert(settings, key, value);
    var i := FirstSetting(settings, key);
    UpsertShape(settings, key, value);
    forall a, b | 0 <= a < b < |r| ensures r[a].key != r[b].key {
      if b == |settings| {
        assert i.None? && r[a] == settings[a];
      } else {
        assert r[a].key == settings[a].key && r[b].key == settings[b].key;
      }
    }
    if i.Some? {
      assert r[i.value].key == key;
      assert FirstSetting(r, key) == i;
    } else {
      assert r[|settings|].key == key;
      assert FirstSetting(r, key) == Some(|settings|);
    }
  }

  /** Two tables whose keys agree row by row, where the longer one adds no row
      with `key`, have `.first()` at the same row. */
  lemma FirstSettingSameKeys(a: seq<AppSetting>, b: seq<AppSetting>, key: string)
    requires |a| <= |b|
    requires forall k :: 0 <= k < |a| ==> a[k].key == b[k].key
    requires forall k :: |a| <= k < |b| ==> b[k].key != key
    ensures FirstSetting(b, key) == FirstSetting(a, key)
  {
    var fa := FirstSetting(a, key);
    if fa.Some? {
      var i := fa.value;
      assert b[i].key == key;
      var fb := FirstSetting(b, key);
      assert fb.Some? && fb.value <= i;
      assert a[fb.value].key == key;
      assert fb == fa;
    } else {
      assert forall k :: 0 <= k < |b| ==> b[k].key != key;
      assert FirstSetting(b, key).None?;
    }
  }

  /** Upserting one key leaves `.first()` of every other key where it was. */
  lemma UpsertOtherRow(settings: seq<AppSetting>, key: string, value: string, other: string)
    requires other != key
    ensures var r := Upsert(settings, key, value);
      var fo := FirstSetting(settings, other);
      && FirstSetting(r, other) == fo
      && (fo.Some? ==> r[fo.value] == settings[fo.value])
  {
    var r := Upsert(settings, key, value);
    UpsertShape(settings, key, value);
    FirstSettingSameKeys(settings, r, other);
  }

  /** Upserting keeps keys unique, stores the value under the key and leaves
      every other key's value as it was. */
  lemma UpsertSpec(settings: seq<AppSetting>, key: string, value: string, other: string)
    requires UniqueKeys(settings)
    requires other != key
    ensures var r := Upsert(settings, key, value);
      && UniqueKeys(r)
      && MappedValue(r, key) == Some(value)
      && MappedValue(r, other) == MappedValue(settings, other)
      && FirstSetting(r, key).Some? && r[FirstSetting(r, key).value].value == Some(value)
  {
    var r := Upsert(settings, key, value);
    UpsertStores(settings, key, value);
    UpsertOtherRow(settings, key, value, other);
    MappedValueFirst(r, key);
    MappedValueFirst(r, other);
    MappedValueFirst(settings, other);
  }

  /** The colour stored for button `i`. */
  function SubmittedColor(colors: seq<string>, i: nat): string
    requires i < |BUTTON_COLOR_DEFAULTS| && |colors| == |BUTTON_COLOR_DEFAULTS|
  {
    SanitizeHexColor(Some(colors[i]), BUTTON_COLOR_DEFAULTS[i].1)
  }

  /** The five sanitised colours in button order. */
  function SubmittedColors(colors: seq<string>): (r: seq<string>)
    requires |colors| == |BUTTON_COLOR_DEFAULTS|
    ensures |r| == |BUTTON_COLOR_DEFAULTS|
    ensures forall i :: 0 <= i < |r| ==> r[i] == SubmittedColor(colors, i)
  {
    seq(|BUTTON_COLOR_DEFAULTS|, i requires 0 <= i < |BUTTON_COLOR_DEFAULTS| => SubmittedColor(colors, i))
  }

  /** The settings after the first `n` iterations of the colour loop, which
      stores `values[i]` under button `i`'s key. */
  function ColorsApplied(settings: seq<AppSetting>, values: seq<string>, n: nat): seq<AppSetting>
    requires n <= |BUTTON_COLOR_DEFAULTS| && |values| == |BUTTON_COLOR_DEFAULTS|
  {
    if n == 0 then settings
    else Upsert(ColorsApplied(settings, values, n - 1), BUTTON_COLOR_DEFAULTS[n - 1].0, values[n - 1])
  }

  /** The settings table after a valid submission. */
  function SubmittedSettings(settings: seq<AppSetting>, theme: string, colors: seq<string>): seq<AppSetting>
    requires |colors| == |BUTTON_COLOR_DEFAULTS|
  {
    ColorsApplied(Upsert(settings, THEME_KEY, theme), SubmittedColors(colors), |BUTTON_COLOR_DEFAULTS|)
  }

  /** `theme_settings_submit`: a non-admin is sent to the dashboard and an
      unknown theme back to the form, changing nothing; otherwise the theme and
      the five sanitised colours are stored. */
  method ThemeSettingsSubmit(db: Database, user: Option<User>, theme: string, primary: string, secondary: string,
                             success: string, warning: string, danger: string)
    returns (resp: Response)
    modifies db`settings
    ensures !AdminVisitor(user) ==> resp == DASHBOARD && db.settings == old(db.settings)
    ensures AdminVisitor(user) && !KnownTheme(theme) ==> resp == THEME_PAGE && db.settings == old(db.settings)
    ensures AdminVisitor(user) && KnownTheme(theme) ==>
      resp == THEME_PAGE &&
      db.settings == SubmittedSettings(old(db.settings), theme, [primary, secondary, success, warning, danger])
  {
    if !AdminVisitor(user) {
      return DASHBOARD;
    }
    if !(exists i :: 0 <= i < |THEMES| && THEMES[i].0 == theme) {
      return THEME_PAGE;
    }
    db.settings := Upsert(db.settings, THEME_KEY, theme);
    ghost var afterTheme := db.settings;
    var submitted := [primary, secondary, success, warning, danger];
    ghost var values := SubmittedColors(submitted);
    for i := 0 to |BUTTON_COLOR_DEFAULTS|
      invariant db.settings == ColorsApplied(afterTheme, values, i)
    {
      var (key, default) := BUTTON_COLOR_DEFAULTS[i];
      var colorValue := SanitizeHexColor(Some(submitted[i]), default);
      db.settings := Upsert(db.settings, key, colorValue);
    }
    resp := THEME_PAGE;
  }

  /** The button keys are distinct from each other and from the theme key. */
  lemma ButtonKeysDistinct()
    ensures forall i :: 0 <= i < |BUTTON_COLOR_DEFAULTS| ==> BUTTON_COLOR_DEFAULTS[i].0 != THEME_KEY
    ensures forall i, j :: 0 <= i < j < |BUTTON_COLOR_DEFAULTS| ==> BUTTON_COLOR_DEFAULTS[i].0 != BUTTON_COLOR_DEFAULTS[j].0
  {
    ButtonDefaultsValid();
  }

  /** Button `n`'s key differs from the theme key and from every earlier button's. */
  lemma ButtonKeyFresh(n: nat)
    requires n < |BUTTON_COLOR_DEFAULTS|
    ensures BUTTON_COLOR_DEFAULTS[n].0 != THEME_KEY
    ensures forall i :: 0 <= i < n ==> BUTTON_COLOR_DEFAULTS[i].0 != BUTTON_COLOR_DEFAULTS[n].0
  {
    ButtonKeysDistinct();
  }

  /** The colour loop keeps keys unique and leaves the theme as it was; the
      buttons it has reached read back their values. */
  lemma {:induction false} ColorsAppliedSpec(settings: seq<AppSetting>, values: seq<string>, n: nat)
    requires n <= |BUTTON_COLOR_DEFAULTS| && |values| == |BUTTON_COLOR_DEFAULTS|
    requires UniqueKeys(settings)
    ensures var r := ColorsApplied(settings, values, n);
      && UniqueKeys(r)
      && MappedValue(r, THEME_KEY) == MappedValue(settings, THEME_KEY)
      && forall i :: 0 <= i < n ==> MappedValue(r, BUTTON_COLOR_DEFAULTS[i].0) == Some(values[i])
  {
    if n > 0 {
      ColorsAppliedSpec(settings, values, n - 1);
      var prev := ColorsApplied(settings, values, n - 1);
      var r := ColorsApplied(settings, values, n);
      assert r == Upsert(prev, BUTTON_COLOR_DEFAULTS[n - 1].0, values[n - 1]);
      ButtonKeyFresh(n - 1);
      ColorStep(prev, r, values, n - 1);
      forall i | 0 <= i < n ensures MappedValue(r, BUTTON_COLOR_DEFAULTS[i].0) == Some(values[i]) {
        assert i <= n - 1;
      }
    }
  }

  /** One iteration of the colour loop: it stores button `n`'s value and keeps
      the theme and the buttons already stored. */
  lemma ColorStep(prev: seq<AppSetting>, r: seq<AppSetting>, values: seq<string>, n: nat)
    requires n < |BUTTON_COLOR_DEFAULTS| && |values| == |BUTTON_COLOR_DEFAULTS|
    requires r == Upsert(prev, BUTTON_COLOR_DEFAULTS[n].0, values[n])
    requires UniqueKeys(prev)
    requires BUTTON_COLOR_DEFAULTS[n].0 != THEME_KEY
    requires forall i :: 0 <= i < n ==> BUTTON_COLOR_DEFAULTS[i].0 != BUTTON_COLOR_DEFAULTS[n].0
    requires forall i :: 0 <= i < n ==> MappedValue(prev, BUTTON_COLOR_DEFAULTS[i].0) == Some(values[i])
    ensures UniqueKeys(r)
    ensures MappedValue(r, THEME_KEY) == MappedValue(prev, THEME_KEY)
    ensures forall i :: 0 <= i <= n ==> MappedValue(r, BUTTON_COLOR_DEFAULTS[i].0) == Some(values[i])
  {
    var key := BUTTON_COLOR_DEFAULTS[n].0;
    UpsertSpec(prev, key, values[n], THEME_KEY);
    forall i | 0 <= i <= n
      ensures MappedValue(r, BUTTON_COLOR_DEFAULTS[i].0) == Some(values[i])
    {
      if i < n {
        UpsertSpec(prev, key, values[n], BUTTON_COLOR_DEFAULTS[i].0);
      }
    }
  }

  /** After a valid submission the form shows the submitted theme and the
      sanitised submitted colours, and the key column stays unique. */
  lemma SubmitThenForm(settings: seq<AppSetting>, user: User, theme: string, colors: seq<string>)
    requires UniqueKeys(settings) && AdminVisitor(Some(user)) && KnownTheme(theme)
    requires |colors| == |BUTTON_COLOR_DEFAULTS|
    ensures var r := SubmittedSettings(settings, theme, colors);
      var form := ThemeSettingsForm(r, Some(user));
      && UniqueKeys(r)
      && form.Some? && form.value.currentTheme == theme
      && |form.value.buttonColors| == |BUTTON_COLOR_DEFAULTS|
      && forall i :: 0 <= i < |BUTTON_COLOR_DEFAULTS| ==>
           form.value.buttonColors[i] == (BUTTON_COLOR_DEFAULTS[i].0, SubmittedColor(colors, i))
  {
    var r := SubmittedSettings(settings, theme, colors);
    SubmittedReadBack(settings, theme, colors);
    ButtonsReadBack(r, colors);
  }

  /** The stored rows after a submission: unique keys, the theme, and each
      button's sanitised colour. */
  lemma SubmittedReadBack(settings: seq<AppSetting>, theme: string, colors: seq<string>)
    requires UniqueKeys(settings) && KnownTheme(theme)
    requires |colors| == |BUTTON_COLOR_DEFAULTS|
    ensures var r := SubmittedSettings(settings, theme, colors);
      && UniqueKeys(r)
      && CurrentTheme(r) == theme
      && forall i :: 0 <= i < |BUTTON_COLOR_DEFAULTS| ==>
           MappedValue(r, BUTTON_COLOR_DEFAULTS[i].0) == Some(SubmittedColor(colors, i))
  {
    var s1 := Upsert(settings, THEME_KEY, theme);
    UpsertStores(settings, THEME_KEY, theme);
    MappedValueFirst(s1, THEME_KEY);
    var values := SubmittedColors(colors);
    var r := ColorsApplied(s1, values, |BUTTON_COLOR_DEFAULTS|);
    assert r == SubmittedSettings(settings, theme, colors);
    ColorsAppliedSpec(s1, values, |BUTTON_COLOR_DEFAULTS|);
    MappedValueFirst(r, THEME_KEY);
    forall i | 0 <= i < |BUTTON_COLOR_DEFAULTS|
      ensures MappedValue(r, BUTTON_COLOR_DEFAULTS[i].0) == Some(SubmittedColor(colors, i))
    {
      assert values[i] == SubmittedColor(colors, i);
    }
  }

  /** Applying the colours leaves the value of every other key as it was. */
  lemma {:induction false} ColorsAppliedOther(settings: seq<AppSetting>, values: seq<string>, n: nat, other: string)
    requires n <= |BUTTON_COLOR_DEFAULTS| && |values| == |BUTTON_COLOR_DEFAULTS|
    requires UniqueKeys(settings)
    requires forall i :: 0 <= i < |BUTTON_COLOR_DEFAULTS| ==> BUTTON_COLOR_DEFAULTS[i].0 != other
    ensures UniqueKeys(ColorsApplied(settings, values, n))
    ensures MappedValue(ColorsApplied(settings, values, n), other) == MappedValue(settings, other)
  {
    if n > 0 {
      ColorsAppliedOther(settings, values, n - 1, other);
      var prev := ColorsApplied(settings, values, n - 1);
      UpsertSpec(prev, BUTTON_COLOR_DEFAULTS[n - 1].0, values[n - 1], other);
    }
  }

  /** A submission changes no key besides the theme and the five button colours. */
  lemma SubmittedOtherKeys(settings: seq<AppSetting>, theme: string, colors: seq<string>, other: string)
    requires UniqueKeys(settings)
    requires |colors| == |BUTTON_COLOR_DEFAULTS|
    requires other != THEME_KEY
    requires forall i :: 0 <= i < |BUTTON_COLOR_DEFAULTS| ==> BUTTON_COLOR_DEFAULTS[i].0 != other
    ensures MappedValue(SubmittedSettings(settings, theme, colors), other) == MappedValue(settings, other)
  {
    var s1 := Upsert(settings, THEME_KEY, theme);
    UpsertSpec(settings, THEME_KEY, theme, other);
    ColorsAppliedOther(s1, SubmittedColors(colors), |BUTTON_COLOR_DEFAULTS|, other);
  }

  /** Stored sanitised colours read back unchanged on the form. */
  lemma ButtonsReadBack(r: seq<AppSetting>, colors: seq<string>)
    requires |colors| == |BUTTON_COLOR_DEFAULTS|
    requires forall i :: 0 <= i < |BUTTON_COLOR_DEFAULTS| ==>
      MappedValue(r, BUTTON_COLOR_DEFAULTS[i].0) == Some(SubmittedColor(colors, i))
    ensures forall i :: 0 <= i < |BUTTON_COLOR_DEFAULTS| ==>
      ButtonColors(r)[i] == (BUTTON_COLOR_DEFAULTS[i].0, SubmittedColor(colors, i))
  {
    ButtonDefaultsValid();
    forall i | 0 <= i < |BUTTON_COLOR_DEFAULTS|
      ensures ButtonColors(r)[i] == (BUTTON_COLOR_DEFAULTS[i].0, SubmittedColor(colors, i))
    {
      SanitizeIdempotent(Some(colors[i]), BUTTON_COLOR_DEFAULTS[i].1);
    }
  }
}
