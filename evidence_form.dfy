/**
 * The evidence form's submit path: the required-field check, the parsing of the
 * comma-separated tag box, and the payload built for `createEvidence` or `updateEvidence`.
 * The form is the only place where required fields are checked.
 */
module EvidenceForm {
  import opened Base
  import opened Text
  import opened Evidence
  import opened Tags
  import I18n

  /** The editable fields, as the inputs hold them. */
  datatype FormState = FormState(
    title: string,
    category: string,
    status: Status,
    tags: string,
    description: string,
    filePath: string)

  /** The fields that can carry an error message. */
  datatype FormField = TitleField | CategoryField | FileField

  /** The dictionary key of a field's "required" message. */
  function ErrorKey(f: FormField): string {
    match f
    case TitleField => "form.error.title.required"
    case CategoryField => "form.error.category.required"
    case FileField => "form.error.file.required"
  }

  /** The text a required field holds. */
  function FieldText(form: FormState, f: FormField): string {
    match f
    case TitleField => form.title
    case CategoryField => form.category
    case FileField => form.filePath
  }

  /** The field's text is empty once trimmed. */
  predicate Missing(form: FormState, f: FormField) {
    Trim(FieldText(form, f)) == ""
  }

  /** Every required field holds something besides whitespace. */
  predicate IsValid(form: FormState) {
    !Missing(form, TitleField) && !Missing(form, CategoryField) && !Missing(form, FileField)
  }

  /**
   * `validate()`: builds the error record one field at a time and reports whether it stayed
   * empty. The record has a message for exactly the missing fields.
   */
  method Validate(form: FormState, dict: map<string, string>) returns (ok: bool, errors: map<FormField, string>)
    ensures TitleField in errors <==> Missing(form, TitleField)
    ensures CategoryField in errors <==> Missing(form, CategoryField)
    ensures FileField in errors <==> Missing(form, FileField)
    ensures forall f :: f in errors ==> errors[f] == I18n.Lookup(dict, ErrorKey(f))
    ensures ok <==> IsValid(form)
    ensures ok <==> errors == map[]
  {
    errors := map[];
    if Missing(form, TitleField) {
      var message := I18n.T(dict, ErrorKey(TitleField), []);
      errors := errors[TitleField := message];
    }
    if Missing(form, CategoryField) {
      var message := I18n.T(dict, ErrorKey(CategoryField), []);
      errors := errors[CategoryField := message];
    }
    if Missing(form, FileField) {
      var message := I18n.T(dict, ErrorKey(FileField), []);
      errors := errors[FileField := message];
    }
    ok := |errors| == 0;
    if !IsValid(form) {
      var f := if Missing(form, TitleField) then TitleField
        else if Missing(form, CategoryField) then CategoryField else FileField;
      assert f in errors.Keys;
    }
  }

  /** `tags.split(',').map((t) => t.trim()).filter(Boolean)`. */
  function ParseTags(s: string): (tags: seq<string>)
    ensures forall n :: n in tags ==> n != "" && IsTrimmed(n) && ',' !in n
  {
    var parts := SplitComma(s);
    TrimmedSegments(parts);
    DropEmpty(TrimAll(parts))
  }

  /** `names.join(', ')`, which fills the tag box when an existing item is opened. */
  function JoinTags(names: seq<string>): string
    decreases |names|
  {
    if names == [] then ""
    else if |names| == 1 then names[0]
    else names[0] + ", " + JoinTags(names[1..])
  }

  /**
   * The joined text starts with the first name and ends with the last, and with non-empty
   * names it is empty exactly when there are no names.
   */
  lemma {:induction false} JoinTagsEnds(names: seq<string>)
    ensures names != [] ==> names[0] <= JoinTags(names)
    ensures names != [] ==> var r, last := JoinTags(names), names[|names| - 1];
      |last| <= |r| && r[|r| - |last|..] == last
    ensures (forall n :: n in names ==> n != "") ==> (JoinTags(names) == "" <==> names == [])
    decreases |names|
  {
    if names != [] {
      assert names[0] in names;
    }
    if |names| > 1 {
      var rest := JoinTags(names[1..]);
      var r := JoinTags(names);
      JoinTagsEnds(names[1..]);
      assert r == names[0] + ", " + rest;
      assert r[..|names[0]|] == names[0];
      assert names[|names| - 1] == names[1..][|names[1..]| - 1];
      assert r[|r| - |rest|..] == rest;
    }
  }

  /** A tag name the tag box can hold and give back: non-empty, trimmed and free of commas. */
  predicate Typable(n: string) {
    n != "" && IsTrimmed(n) && ',' !in n
  }

  /** The request the form sends. */
  datatype FormCommand =
    | CreateCommand(payload: CreatePayload)
    | UpdateCommand(id: string, update: UpdatePayload)

  /** `description.trim() || undefined`. */
  function DescriptionOf(form: FormState): (d: Option<string>)
    ensures d.None? <==> Trim(form.description) == ""
    ensures d.Some? ==> d.value == Trim(form.description) && d.value != "" && IsTrimmed(d.value)
  {
    var t := Trim(form.description);
    if t == "" then None else Some(t)
  }

  /**
   * `handleSubmit`: nothing is sent for an invalid form; otherwise the trimmed fields, the
   * untrimmed file path and the parsed tags go to `updateEvidence` when the route has a
   * non-empty id and to `createEvidence` when it has none.
   */
  function Submit(routeId: Option<string>, form: FormState): (c: Option<FormCommand>)
    ensures c.None? <==> !IsValid(form)
    ensures c.Some? ==> (c.value.UpdateCommand? <==> routeId.Some? && routeId.value != "")
    ensures c.Some? && c.value.UpdateCommand? ==> c.value.id == routeId.value
    ensures c.Some? && c.value.CreateCommand? ==>
      var p := c.value.payload;
      && p.title == Trim(form.title) && p.title != "" && IsTrimmed(p.title)
      && p.category == Trim(form.category) && p.category != "" && IsTrimmed(p.category)
      && p.status == form.status && p.description == DescriptionOf(form)
      && p.filePath == form.filePath && Trim(p.filePath) != ""
      && p.tags == ParseTags(form.tags)
    ensures c.Some? && c.value.UpdateCommand? ==>
      var p := c.value.update;
      && p.title == Trim(form.title) && p.title != "" && IsTrimmed(p.title)
      && p.category == Trim(form.category) && p.category != "" && IsTrimmed(p.category)
      && p.status == form.status && p.description == DescriptionOf(form)
      && p.filePath == Some(form.filePath) && Trim(form.filePath) != ""
      && p.tags == ParseTags(form.tags)
  {
    if !IsValid(form) then None
    else
      assert Trim(form.filePath) != "" by { assert !Missing(form, FileField); }
      var title := Trim(form.title);
      var category := Trim(form.category);
      var tags := ParseTags(form.tags);
      if routeId.Some? && routeId.value != "" then
        Some(UpdateCommand(routeId.value,
          UpdatePayload(title, DescriptionOf(form), category, form.status, Some(form.filePath), tags)))
      else
        Some(CreateCommand(CreatePayload(title, DescriptionOf(form), category, form.status, form.filePath, tags)))
  }

  /** Trimmed comma-free segments stay comma-free. */
  lemma TrimmedSegments(parts: seq<string>)
    requires forall p :: p in parts ==> ',' !in p
    ensures forall n :: n in TrimAll(parts) ==> IsTrimmed(n) && ',' !in n
  {
    var trimmed := TrimAll(parts);
    forall n | n in trimmed ensures IsTrimmed(n) && ',' !in n {
      var k :| 0 <= k < |trimmed| && trimmed[k] == n;
      assert parts[k] in parts;
      TrimKeepsOut(parts[k], ',');
    }
  }

  /** Text without a comma is one segment. */
  lemma {:induction false} SplitCommaNoComma(a: string)
    requires ',' !in a
    ensures SplitComma(a) == [a]
    decreases |a|
  {
    if a != [] {
      assert a[0] in a;
      assert ',' !in a[1..] by {
        assert forall x :: x in a[1..] ==> x in a;
      }
      SplitCommaNoComma(a[1..]);
      assert a == [a[0]] + a[1..];
    }
  }

  /** A comma-free segment followed by a comma comes off the front of the split. */
  lemma {:induction false} SplitCommaPrefix(a: string, rest: string)
    requires ',' !in a
    ensures SplitComma(a + "," + rest) == [a] + SplitComma(rest)
    decreases |a|
  {
    var s := a + "," + rest;
    if a == [] {
      assert s == "," + rest && s[1..] == rest;
    } else {
      assert a[0] in a;
      assert ',' !in a[1..] by {
        assert forall x :: x in a[1..] ==> x in a;
      }
      SplitCommaPrefix(a[1..], rest);
      assert s[0] == a[0] && s[1..] == a[1..] + "," + rest;
      assert [a[0]] + a[1..] == a;
    }
  }

  lemma TrimAllAppend(a: seq<string>, b: seq<string>)
    ensures TrimAll(a + b) == TrimAll(a) + TrimAll(b)
  {
    var l := TrimAll(a + b);
    var r := TrimAll(a) + TrimAll(b);
    forall k | 0 <= k < |l| ensures l[k] == r[k] {
      if k < |a| {
        assert (a + b)[k] == a[k];
      } else {
        assert (a + b)[k] == b[k - |a|];
      }
    }
  }

  lemma {:induction false} SplitJoinTags(lead: string, names: seq<string>)
    requires |names| >= 1 && IsBlank(lead)
    requires forall n :: n in names ==> Typable(n)
    ensures TrimAll(SplitComma(lead + JoinTags(names))) == names
    decreases |names|
  {
    var x := names[0];
    assert Typable(x);
    assert !IsWs(',');
    assert ',' !in lead;
    if |names| == 1 {
      assert ',' !in lead + x;
      SplitCommaNoComma(lead + x);
      TrimBlankPrefix(lead, x);
    } else {
      var j := JoinTags(names[1..]);
      assert lead + JoinTags(names) == (lead + x) + "," + (" " + j);
      assert ',' !in lead + x;
      SplitCommaPrefix(lead + x, " " + j);
      assert forall n :: n in names[1..] ==> n in names;
      SplitJoinTags(" ", names[1..]);
      TrimAllAppend([lead + x], SplitComma(" " + j));
      TrimBlankPrefix(lead, x);
      assert names == [x] + names[1..];
    }
  }

  /**
   * Opening an item fills the tag box with its names joined by ", "; submitting the box
   * unchanged sends back the same names in the same order.
   */
  lemma ParseJoinTags(names: seq<string>)
    requires forall n :: n in names ==> Typable(n)
    ensures ParseTags(JoinTags(names)) == names
  {
    if names == [] {
      assert SplitComma("") == [""];
      assert TrimAll([""]) == [""] by {
        assert Trim("") == "";
      }
    } else {
      assert IsBlank("");
      assert "" + JoinTags(names) == JoinTags(names);
      SplitJoinTags("", names);
    }
  }

  /** The box keeps repeated names; only the main process removes duplicates. */
  lemma ParseKeepsDuplicates()
    ensures ParseTags("q3, q3") == ["q3", "q3"]
    ensures NormalizeTags(ParseTags("q3, q3")) == ["q3"]
  {
    ParseRepeated();
    NormalizeRepeated();
  }

  lemma ParseRepeated()
    ensures ParseTags("q3, q3") == ["q3", "q3"]
  {
    var names := ["q3", "q3"];
    assert Typable("q3") by {
      assert !IsWs('q') && !IsWs('3');
    }
    assert JoinTags(names) == "q3, q3";
    ParseJoinTags(names);
  }

  lemma NormalizeRepeated()
    ensures NormalizeTags(["q3", "q3"]) == ["q3"]
  {
    var names := ["q3", "q3"];
    assert TrimAll(names) == names by {
      assert !IsWs('q') && !IsWs('3');
      TrimOfTrimmed("q3");
    }
    assert DropEmpty(names) == names;
    DedupePair("q3");
  }

  lemma DedupePair(n: string)
    ensures Dedupe([n, n]) == [n]
  {
    assert [n, n][..1] == [n];
    assert Dedupe([n]) == [n] by {
      assert [n][..0] == [];
    }
  }

  /**
   * On parsed tags the main process's normalisation only removes repeats: the names are
   * already trimmed and non-empty.
   */
  lemma NormalizeParsed(s: string)
    ensures NormalizeTags(ParseTags(s)) == Dedupe(ParseTags(s))
  {
    var names := ParseTags(s);
    forall k | 0 <= k < |names| ensures TrimAll(names)[k] == names[k] {
      assert names[k] in names;
      TrimOfTrimmed(names[k]);
    }
    assert TrimAll(names) == names;
  }
}
