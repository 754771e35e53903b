/** The lookup constant for month names and the coercion of a filter card's
    option list (src/utils/utils.py). */
module Utils {
  import opened Collections

  /** MONTH_NAMES, in its insertion order. */
  const MONTH_NAMES: Dict<int, string> := [
    (1, "Enero"), (2, "Febrero"), (3, "Marzo"), (4, "Abril"), (5, "Mayo"), (6, "Junio"),
    (7, "Julio"), (8, "Agosto"), (9, "Septiembre"), (10, "Octubre"), (11, "Noviembre"), (12, "Diciembre")
  ]

  /** `MONTH_NAMES.get(m)`. */
  function MonthName(m: int): Option<string> { Lookup(MONTH_NAMES, m) }

  lemma MonthNamesWellFormed()
    ensures |MONTH_NAMES| == 12
    ensures forall i :: 0 <= i < 12 ==> MONTH_NAMES[i].0 == i + 1
    ensures UniqueKeys(MONTH_NAMES)
    ensures DistinctValues(MONTH_NAMES)
  {
    assert MONTH_NAMES[0] == (1, "Enero") && MONTH_NAMES[1] == (2, "Febrero") && MONTH_NAMES[2] == (3, "Marzo");
    assert MONTH_NAMES[3] == (4, "Abril") && MONTH_NAMES[4] == (5, "Mayo") && MONTH_NAMES[5] == (6, "Junio");
    assert MONTH_NAMES[6] == (7, "Julio") && MONTH_NAMES[7] == (8, "Agosto") && MONTH_NAMES[8] == (9, "Septiembre");
    assert MONTH_NAMES[9] == (10, "Octubre") && MONTH_NAMES[10] == (11, "Noviembre") && MONTH_NAMES[11] == (12, "Diciembre");
  }

  /** MONTH_NAMES has exactly the keys 1..12. */
  lemma MonthNamesKeys(m: int)
    ensures MonthName(m).Some? <==> 1 <= m <= 12
  {
    MonthNamesWellFormed();
    if 1 <= m <= 12 {
      assert MONTH_NAMES[m - 1].0 == m;
    }
  }

  /** The inverse of MONTH_NAMES is total on the twelve names and round-trips both ways. */
  lemma MonthNamesRoundTrip(m: int, name: string)
    ensures MonthName(m) == Some(name) ==> InverseLookup(MONTH_NAMES, name) == Some(m)
    ensures InverseLookup(MONTH_NAMES, name) == Some(m) ==> 1 <= m <= 12 && MonthName(m) == Some(name)
  {
    MonthNamesWellFormed();
    if MonthName(m) == Some(name) {
      LookupThenInverse(MONTH_NAMES, m);
    }
    if InverseLookup(MONTH_NAMES, name) == Some(m) {
      InverseThenLookup(MONTH_NAMES, name);
      MonthNamesKeys(m);
    }
  }

  // ---------------------------------------------------------------------
  // Dropdown options

  /** A Python value that can stand in an option list: a scalar or a dict. */
  datatype Value = Str(s: string) | Int(i: int) | DictValue(entries: Dict<string, Value>)

  /** `{'label': label, 'value': value}`. */
  function LabelValue(shown: Value, picked: Value): Value {
    DictValue([("label", shown), ("value", picked)])
  }

  /** `key in v` for a dict v. */
  predicate HasKey(v: Value, key: string)
    requires v.DictValue?
  {
    Lookup(v.entries, key).Some?
  }

  /** `v.get(key, default)` for a dict v. */
  function GetOr(v: Value, key: string, default: Value): Value
    requires v.DictValue?
  {
    match Lookup(v.entries, key)
    case Some(x) => x
    case None => default
  }

  /** `[{'label': opt.get('label', str(opt)), 'value': opt.get('value', opt)} for opt in opts]`;
      `get` on an element that is not a dict raises AttributeError. */
  function CoerceDicts(opts: seq<Value>, str: Value -> string): Result<seq<Value>> {
    if opts == [] then Ok([])
    else if !opts[0].DictValue? then Err(AttributeError("object has no attribute 'get'"))
    else
      var rest :- CoerceDicts(opts[1..], str);
      Ok([LabelValue(GetOr(opts[0], "label", Str(str(opts[0]))), GetOr(opts[0], "value", opts[0]))] + rest)
  }

  /** The option normalisation of create_filter_card; `str` is Python's str(). */
  function NormalizeOptions(options: Option<seq<Value>>, str: Value -> string): Result<Option<seq<Value>>> {
    if options.None? || |options.value| == 0 then Ok(options)
    else
      var opts := options.value;
      if !opts[0].DictValue? then
        Ok(Some(MapSeq(opts, (o: Value) => LabelValue(o, o))))
      else if HasKey(opts[0], "label") && HasKey(opts[0], "value") then Ok(options)
      else
        var coerced :- CoerceDicts(opts, str);
        Ok(Some(coerced))
  }

  lemma {:induction false} CoerceDictsSpec(opts: seq<Value>, str: Value -> string)
    ensures CoerceDicts(opts, str).Ok? <==> forall i :: 0 <= i < |opts| ==> opts[i].DictValue?
    ensures CoerceDicts(opts, str).Ok? ==>
              var r := CoerceDicts(opts, str).value;
              |r| == |opts| &&
              forall i :: 0 <= i < |opts| ==>
                r[i] == LabelValue(GetOr(opts[i], "label", Str(str(opts[i]))), GetOr(opts[i], "value", opts[i]))
  {
    if opts != [] {
      CoerceDictsSpec(opts[1..], str);
      if !opts[0].DictValue? {
        assert !(forall i :: 0 <= i < |opts| ==> opts[i].DictValue?);
      } else if CoerceDicts(opts[1..], str).Err? {
        var i :| 0 <= i < |opts[1..]| && !opts[1..][i].DictValue?;
        assert !opts[i + 1].DictValue?;
      } else {
        forall i | 1 <= i < |opts| ensures opts[i].DictValue? {
          assert opts[1..][i - 1] == opts[i];
        }
      }
    }
  }

  /** What each branch of the normalisation returns: empty and None options and lists
      whose FIRST element is a dict with both 'label' and 'value' pass unchanged; a list
      whose first element is not a dict is wrapped element by element, same length and
      order; otherwise every element must be a dict and gets its missing
      label / value filled in. */
  lemma NormalizeOptionsSpec(options: Option<seq<Value>>, str: Value -> string)
    ensures options.None? || options.value == [] ==> NormalizeOptions(options, str) == Ok(options)
    ensures options.Some? && options.value != [] && !options.value[0].DictValue? ==>
              var r := NormalizeOptions(options, str);
              r.Ok? && r.value.Some? && |r.value.value| == |options.value| &&
              forall i :: 0 <= i < |options.value| ==>
                r.value.value[i] == LabelValue(options.value[i], options.value[i])
    ensures options.Some? && options.value != [] && options.value[0].DictValue? &&
            HasKey(options.value[0], "label") && HasKey(options.value[0], "value") ==>
              NormalizeOptions(options, str) == Ok(options)
    ensures options.Some? && options.value != [] && options.value[0].DictValue? &&
            !(HasKey(options.value[0], "label") && HasKey(options.value[0], "value")) ==>
              var r := NormalizeOptions(options, str);
              (r.Ok? <==> forall i :: 0 <= i < |options.value| ==> options.value[i].DictValue?) &&
              (r.Ok? ==>
                 && r.value.Some? && |r.value.value| == |options.value|
                 && forall i :: 0 <= i < |options.value| ==>
                      var o := options.value[i];
                      r.value.value[i] == LabelValue(GetOr(o, "label", Str(str(o))), GetOr(o, "value", o)))
  {
    if options.Some? && options.value != [] {
      CoerceDictsSpec(options.value, str);
    }
  }

  /** Normalising an already normalised option list changes nothing. */
  lemma NormalizeOptionsIdempotent(options: Option<seq<Value>>, str: Value -> string)
    requires NormalizeOptions(options, str).Ok?
    ensures NormalizeOptions(NormalizeOptions(options, str).value, str) == NormalizeOptions(options, str)
  {
    var r := NormalizeOptions(options, str).value;
    NormalizeOptionsSpec(options, str);
    if r.Some? && r.value != [] {
      var first := r.value[0];
      if options.value[0].DictValue? && HasKey(options.value[0], "label") && HasKey(options.value[0], "value") {
        assert r == options;
      } else {
        assert first.DictValue? && first.entries[0].0 == "label" && first.entries[1].0 == "value";
        assert Lookup(first.entries, "label").Some?;
        assert Lookup(first.entries[1..], "value").Some?;
      }
    }
  }
}
