/**
 * The listing editor of the admin area (src/pages/admin/PropertyForm.jsx): the form
 * record and its defaults, the features field (a list in the database, a single
 * comma-separated text box in the form), the per-field change handler, and the choice
 * between updating and inserting.
 */
module PropertyForm {
  import opened Wrappers
  import opened Seqs
  import opened Strings

  /** A field value of a database record or of the form state. */
  datatype Value = Text(text: string) | Number(n: int) | Flag(b: bool) | List(items: seq<string>) | Null

  /** A record or a form: field name to value; a missing name reads as `undefined`. */
  type Record = map<string, Value>

  /** JavaScript truthiness of a field; `undefined` and `null` are falsy, every array is truthy. */
  predicate Truthy(v: Value)
  {
    match v
    case Text(s) => s != ""
    case Number(n) => n != 0
    case Flag(b) => b
    case List(_) => true
    case Null => false
  }

  const TextFields := ["title", "catch_phrase", "price", "surface", "city", "description", "image_url", "features"]

  /** The fields of the form: the text boxes and the two selects. */
  const FormFields := TextFields + ["type", "status"]

  /** The text of a blank form field: empty, except for the two selects. */
  function InitialText(field: string): (t: string)
    ensures field in TextFields ==> t == ""
  {
    if field == "type" then "Maison" else if field == "status" then "Vente" else ""
  }

  /** The state of a blank form. */
  function NewForm(): (form: Record)
    ensures forall f :: f in form <==> f in FormFields
    ensures "type" in form && form["type"] == Text("Maison")
    ensures "status" in form && form["status"] == Text("Vente")
    ensures forall f :: f in TextFields ==> f in form && form[f] == Text("")
  {
    assert FormFields[|TextFields|] == "type" && FormFields[|TextFields| + 1] == "status";
    map f | f in FormFields :: Text(InitialText(f))
  }

  /** `features.join(', ')`: how a list of features is shown in the text box. */
  function JoinFeatures(features: seq<string>): string
  {
    Join(features, ", ")
  }

  /** Every piece trimmed, in order. */
  function TrimAll(pieces: seq<string>): seq<string>
  {
    seq(|pieces|, i requires 0 <= i < |pieces| => Trim(pieces[i]))
  }

  predicate NonBlank(f: string)
  {
    f != ""
  }

  /** A feature as the parser produces it: non-empty, trimmed, free of commas. */
  predicate WellFormedFeature(f: string)
  {
    f != "" && IsTrimmed(f) && ',' !in f
  }

  /** `features.split(',').map(f => f.trim()).filter(f => f !== '')`. */
  function ParseFeatures(s: string): (fs: seq<string>)
    ensures forall i :: 0 <= i < |fs| ==> WellFormedFeature(fs[i])
  {
    var pieces := Split(s, ',');
    SplitPiecesAreFree(s, ',');
    KeptPiecesWellFormed(pieces);
    Filter(TrimAll(pieces), NonBlank)
  }

  /** The pieces of a split, trimmed and with the blank ones dropped, are well formed. */
  lemma KeptPiecesWellFormed(pieces: seq<string>)
    requires forall i :: 0 <= i < |pieces| ==> ',' !in pieces[i]
    ensures forall i :: 0 <= i < |Filter(TrimAll(pieces), NonBlank)| ==>
      WellFormedFeature(Filter(TrimAll(pieces), NonBlank)[i])
  {
    var trimmed := TrimAll(pieces);
    var fs := Filter(trimmed, NonBlank);
    FilterMembers(trimmed, NonBlank);
    forall i | 0 <= i < |fs|
      ensures WellFormedFeature(fs[i])
    {
      var k :| 0 <= k < |trimmed| && trimmed[k] == fs[i];
      TrimKeepsOut(pieces[k], ',');
    }
  }

  /** A blank in front of the text only widens its first piece by that blank. */
  lemma SplitBlankPrefix(s: string, d: char)
    requires d != ' '
    ensures Split(" " + s, d) == [" " + Split(s, d)[0]] + Split(s, d)[1..]
  {
    var t := " " + s;
    if d in s {
      var i := IndexOf(s, d);
      assert IndexOf(t, d) == i + 1 by {
        assert t[i + 1] == d && t[..i + 1] == " " + s[..i];
        IndexOfIsFirst(t, d, i + 1);
      }
      calc {
        Split(t, d);
        { SplitAtIndexOf(t, d); }
        [t[..i + 1]] + Split(t[i + 2..], d);
        { assert t[..i + 1] == " " + s[..i] && t[i + 2..] == s[i + 1..]; }
        [" " + s[..i]] + Split(s[i + 1..], d);
        { SplitAtIndexOf(s, d); }
        [" " + Split(s, d)[0]] + Split(s, d)[1..];
      }
    } else {
      assert d !in t;
      SplitWithoutSeparator(t, d);
      SplitWithoutSeparator(s, d);
    }
  }

  /** After trimming, a leading blank makes no difference to the pieces. */
  lemma TrimAllBlankPrefix(s: string)
    ensures TrimAll(Split(" " + s, ',')) == TrimAll(Split(s, ','))
  {
    var rest := Split(s, ',');
    calc {
      TrimAll(Split(" " + s, ','));
      { SplitBlankPrefix(s, ','); }
      TrimAll([" " + rest[0]] + rest[1..]);
      { TrimAllConcat([" " + rest[0]], rest[1..]); }
      TrimAll([" " + rest[0]]) + TrimAll(rest[1..]);
      { TrimSkipsBlank(rest[0]); }
      TrimAll([rest[0]]) + TrimAll(rest[1..]);
      { TrimAllConcat([rest[0]], rest[1..]); assert [rest[0]] + rest[1..] == rest; }
      TrimAll(rest);
    }
  }

  /** An empty text box saves no features. */
  lemma EmptyParsesToNothing()
    ensures ParseFeatures("") == []
  {
    assert Split("", ',') == [""];
    assert TrimAll([""]) == [""];
    assert Filter([""], NonBlank) == Filter([], NonBlank) + [];
  }

  /** A single well-formed feature reads back as itself. */
  lemma ParseSingle(f: string)
    requires WellFormedFeature(f)
    ensures ParseFeatures(f) == [f]
  {
    SplitWithoutSeparator(f, ',');
    TrimmedIsFixed(f);
    assert TrimAll([f]) == [f];
    assert Filter([f], NonBlank) == Filter([], NonBlank) + [f];
  }

  lemma TrimAllConcat(a: seq<string>, b: seq<string>)
    ensures TrimAll(a + b) == TrimAll(a) + TrimAll(b)
  {
  }

  /** Joining puts the first feature, a comma, a blank and then the rest. */
  lemma JoinCons(f: string, rest: seq<string>)
    requires rest != []
    ensures JoinFeatures([f] + rest) == f + [','] + (" " + JoinFeatures(rest))
  {
    assert ([f] + rest)[1..] == rest;
  }

  /** The trimmed pieces of a joined list: the first feature, then those of the rest. */
  lemma TrimmedPiecesCons(f: string, rest: seq<string>)
    requires WellFormedFeature(f) && rest != []
    ensures TrimAll(Split(JoinFeatures([f] + rest), ',')) == [f] + TrimAll(Split(JoinFeatures(rest), ','))
  {
    var j := JoinFeatures(rest);
    JoinCons(f, rest);
    SplitAtFirstSeparator(f, " " + j, ',');
    TrimAllConcat([f], Split(" " + j, ','));
    TrimAllBlankPrefix(j);
    TrimmedIsFixed(f);
  }

  /** The first feature of a joined list reads back first, followed by the rest. */
  lemma ParseCons(f: string, rest: seq<string>)
    requires WellFormedFeature(f) && rest != []
    ensures ParseFeatures(JoinFeatures([f] + rest)) == [f] + ParseFeatures(JoinFeatures(rest))
  {
    var tail := TrimAll(Split(JoinFeatures(rest), ','));
    assert Filter([f], NonBlank) == [f] by {
      assert Filter([f], NonBlank) == Filter([], NonBlank) + [f];
    }
    calc {
      ParseFeatures(JoinFeatures([f] + rest));
      Filter(TrimAll(Split(JoinFeatures([f] + rest), ',')), NonBlank);
      { TrimmedPiecesCons(f, rest); }
      Filter([f] + tail, NonBlank);
      { FilterConcat([f], tail, NonBlank); }
      [f] + Filter(tail, NonBlank);
    }
  }

  /**
   * Showing a list of well-formed features in the text box and saving it gives back the
   * same list.
   */
  lemma {:induction false} ParseJoinRoundTrip(fs: seq<string>)
    requires forall i :: 0 <= i < |fs| ==> WellFormedFeature(fs[i])
    ensures ParseFeatures(JoinFeatures(fs)) == fs
  {
    if fs == [] {
      EmptyParsesToNothing();
    } else if |fs| == 1 {
      ParseSingle(fs[0]);
    } else {
      ParseJoinRoundTrip(fs[1..]);
      ParseCons(fs[0], fs[1..]);
      assert [fs[0]] + fs[1..] == fs;
    }
  }

  /** Saving, reloading and saving again gives what the first save gave. */
  lemma ParseIsStable(s: string)
    ensures ParseFeatures(JoinFeatures(ParseFeatures(s))) == ParseFeatures(s)
  {
    ParseJoinRoundTrip(ParseFeatures(s));
  }

  /**
   * Filling the form from a fetched record: every field is copied and the features become
   * `features.join(', ')`, or `''` when they are falsy; truthy features that are not a list
   * make `join` throw.
   */
  function LoadForm(data: Record): (r: Result<Record, string>)
    ensures r.Ok? <==> !("features" in data && Truthy(data["features"]) && !data["features"].List?)
    ensures r.Ok? ==> r.value.Keys == data.Keys + {"features"}
    ensures r.Ok? ==> forall k :: k in data && k != "features" ==> r.value[k] == data[k]
    ensures r.Ok? && "features" in data && data["features"].List? ==>
      r.value["features"] == Text(JoinFeatures(data["features"].items))
    ensures r.Ok? && !("features" in data && data["features"].List?) ==> r.value["features"] == Text("")
  {
    var f := if "features" in data then data["features"] else Null;
    if !Truthy(f) then Ok(data["features" := Text("")])
    else if f.List? then Ok(data["features" := Text(JoinFeatures(f.items))])
    else Err("data.features.join is not a function")
  }

  /** `handleChange`: the named field takes the typed text; no other field changes. */
  function HandleChange(form: Record, name: string, value: string): (r: Record)
    ensures r.Keys == form.Keys + {name}
    ensures r[name] == Text(value)
    ensures forall k :: k in form && k != name ==> r[k] == form[k]
  {
    form[name := Text(value)]
  }

  /**
   * The record sent on submit: the form with its features text parsed into a list;
   * `split` on a features field that is not text throws.
   */
  function Payload(form: Record): (r: Result<Record, string>)
    ensures r.Ok? <==> "features" in form && form["features"].Text?
    ensures r.Ok? ==> r.value.Keys == form.Keys
    ensures r.Ok? ==> forall k :: k in form && k != "features" ==> r.value[k] == form[k]
    ensures r.Ok? ==> r.value["features"] == List(ParseFeatures(form["features"].text))
  {
    if "features" in form && form["features"].Text? then
      Ok(form["features" := List(ParseFeatures(form["features"].text))])
    else Err("formData.features.split is not a function")
  }

  /** A blank form saves an empty list of features. */
  lemma NewFormSavesNoFeatures()
    ensures Payload(NewForm()).Ok?
    ensures Payload(NewForm()).value["features"] == List([])
  {
    assert NewForm()["features"] == Text("");
    EmptyParsesToNothing();
  }

  /** A fetched record with no features (or `null`) saves an empty list. */
  lemma MissingFeaturesSaveEmpty(data: Record)
    requires "features" !in data || !Truthy(data["features"])
    ensures LoadForm(data).Ok? && Payload(LoadForm(data).value).Ok?
    ensures Payload(LoadForm(data).value).value["features"] == List([])
  {
    EmptyParsesToNothing();
  }

  /**
   * Opening a record whose features are well formed and saving it untouched writes back
   * every field as it was.
   */
  lemma LoadThenSaveIsIdentity(data: Record)
    requires "features" in data && data["features"].List?
    requires forall i :: 0 <= i < |data["features"].items| ==> WellFormedFeature(data["features"].items[i])
    ensures LoadForm(data).Ok? && Payload(LoadForm(data).value) == Ok(data)
  {
    var fs := data["features"].items;
    var loaded := data["features" := Text(JoinFeatures(fs))];
    assert LoadForm(data) == Ok(loaded);
    ParseJoinRoundTrip(fs);
    assert Payload(loaded) == Ok(loaded["features" := List(fs)]);
    assert loaded["features" := List(fs)] == data;
  }

  /** Typing into the features box and saving stores the parsed text. */
  lemma ChangeThenSave(form: Record, s: string)
    ensures Payload(HandleChange(form, "features", s)).Ok?
    ensures Payload(HandleChange(form, "features", s)).value["features"] == List(ParseFeatures(s))
    ensures forall k :: k in form && k != "features" ==> Payload(HandleChange(form, "features", s)).value[k] == form[k]
  {
  }

  /** `!!id`: an id in the route (and not the empty string) means editing. */
  predicate IsEditMode(id: Option<string>)
  {
    id.Some? && id.value != ""
  }

  datatype SaveAction = Update(id: string) | Insert

  /** Submit updates the record of the route id in edit mode and inserts otherwise. */
  function SaveActionFor(id: Option<string>): (a: SaveAction)
    ensures a.Update? <==> IsEditMode(id)
    ensures a.Update? ==> a.id == id.value
  {
    if IsEditMode(id) then Update(id.value) else Insert
  }
}
