/**
 The build-profile settings that accept several spellings: `debug`,
 `strip` and `lto`. Each has a decoder from a TOML value (`TryFrom<Value>`)
 and an encoder (`Serialize`); the encoder picks one canonical spelling.
 */
module ProfileSettings {
  import opened Common

  datatype DebugSetting = DebugNone | Lines | Full

  datatype StripSetting = StripNone | Debuginfo | Symbols

  datatype LtoSetting = LtoNone | ThinLocal | Thin | Fat

  /** The names `debug` accepts and the level each one means. */
  const DebugNames: map<string, DebugSetting> :=
    map["none" := DebugNone, "limited" := Lines, "line-directives-only" := Lines,
        "line-tables-only" := Lines, "full" := Full]

  /** The names `strip` accepts and the setting each one means. */
  const StripNames: map<string, StripSetting> :=
    map["none" := StripNone, "debuginfo" := Debuginfo, "symbols" := Symbols]

  /** The names `lto` accepts and the setting each one means. */
  const LtoNames: map<string, LtoSetting> :=
    map["off" := LtoNone, "n" := LtoNone, "no" := LtoNone, "thin" := Thin,
        "fat" := Fat, "on" := Fat, "y" := Fat, "yes" := Fat, "true" := Fat,
        "false" := ThinLocal]

  /** `DebugSetting::try_from`. */
  function DebugFromValue(v: Value): (r: Result<DebugSetting>)
    ensures v.Boolean? ==> r == Ok(if v.b then Full else DebugNone)
    ensures v.Integer? ==> (r.Ok? <==> 0 <= v.n <= 2)
    ensures v.OtherValue? ==> r == Err(Other("wrong data type for debug setting"))
    ensures r.Ok? && v.Integer? ==> DebugLevel(r.value) == v.n
    ensures v.Integer? && r.Err? ==> r == Err(Other("wrong number for debug setting"))
    ensures v.Str? ==> r == (if v.s in DebugNames then Ok(DebugNames[v.s]) else Err(Other("wrong name for debug setting")))
  {
    match v
    case Boolean(b) => Ok(if b then Full else DebugNone)
    case Integer(n) =>
      if n == 0 then Ok(DebugNone)
      else if n == 1 then Ok(Lines)
      else if n == 2 then Ok(Full)
      else Err(Other("wrong number for debug setting"))
    case Str(s) =>
      if s == "none" then Ok(DebugNone)
      else if s == "limited" || s == "line-directives-only" || s == "line-tables-only" then Ok(Lines)
      else if s == "full" then Ok(Full)
      else Err(Other("wrong name for debug setting"))
    case OtherValue => Err(Other("wrong data type for debug setting"))
  }

  /** The discriminant of each debug level (`None = 0`, `Lines = 1`,
      `Full = 2`). */
  function DebugLevel(d: DebugSetting): int {
    match d
    case DebugNone => 0
    case Lines => 1
    case Full => 2
  }

  /** `DebugSetting::serialize`: the boolean for no and full debug info,
      the level number otherwise. */
  function DebugToValue(d: DebugSetting): (r: Value)
    ensures r == (if d == Lines then Integer(DebugLevel(d)) else Boolean(d == Full))
  {
    match d
    case DebugNone => Boolean(false)
    case Lines => Integer(1)
    case Full => Boolean(true)
  }

  lemma DebugRoundTrip(d: DebugSetting)
    ensures DebugFromValue(DebugToValue(d)) == Ok(d)
  {
  }

  /** Decoding accepts exactly the three level numbers, both booleans and
      five names. */
  lemma DebugAccepted(v: Value)
    ensures DebugFromValue(v).Ok? <==>
      || v.Boolean?
      || (v.Integer? && 0 <= v.n <= 2)
      || (v.Str? && v.s in {"none", "limited", "line-directives-only", "line-tables-only", "full"})
  {
  }

  /** `StripSetting::serialize`: the boolean for no stripping and for
      stripping symbols, the name otherwise. */
  function StripToValue(s: StripSetting): (r: Value)
    ensures r == (if s == Debuginfo then Str(StripName(s)) else Boolean(s == Symbols))
  {
    match s
    case StripNone => Boolean(false)
    case Debuginfo => Str("debuginfo")
    case Symbols => Boolean(true)
  }

  /** `StripSetting::try_from`. */
  function StripFromValue(v: Value): (r: Result<StripSetting>)
    ensures v.Boolean? ==> r == Ok(if v.b then Symbols else StripNone)
    ensures v.Integer? || v.OtherValue? ==> r == Err(Other("wrong data type for strip setting"))
    ensures v.Str? ==> (r.Ok? <==> v.s in {"none", "debuginfo", "symbols"})
    ensures v.Str? ==> r == (if v.s in StripNames then Ok(StripNames[v.s]) else Err(Other("strip setting has unknown string value")))
  {
    match v
    case Boolean(b) => Ok(if b then Symbols else StripNone)
    case Str(s) =>
      if s == "none" then Ok(StripNone)
      else if s == "debuginfo" then Ok(Debuginfo)
      else if s == "symbols" then Ok(Symbols)
      else Err(Other("strip setting has unknown string value"))
    case _ => Err(Other("wrong data type for strip setting"))
  }

  lemma StripRoundTrip(s: StripSetting)
    ensures StripFromValue(StripToValue(s)) == Ok(s)
  {
  }

  /** Each strip setting is also reached from its own name. */
  lemma StripNamesAgree(s: StripSetting)
    ensures StripFromValue(Str(StripName(s))) == Ok(s)
  {
  }

  function StripName(s: StripSetting): string {
    match s
    case StripNone => "none"
    case Debuginfo => "debuginfo"
    case Symbols => "symbols"
  }

  /** `LtoSetting::serialize`: the boolean for thin-local and fat LTO,
      a name (`"off"`, `"thin"`) otherwise. */
  function LtoToValue(l: LtoSetting): (r: Value)
    ensures r.Boolean? <==> l == ThinLocal || l == Fat
    ensures r.Boolean? ==> r.b == (l == Fat)
    ensures r.Str? ==> r.s in LtoNames && LtoNames[r.s] == l && r.s == (if l == LtoNone then "off" else "thin")
  {
    match l
    case LtoNone => Str("off")
    case ThinLocal => Boolean(false)
    case Thin => Str("thin")
    case Fat => Boolean(true)
  }

  /** `LtoSetting::try_from`. */
  function LtoFromValue(v: Value): (r: Result<LtoSetting>)
    ensures v.Boolean? ==> r == Ok(if v.b then Fat else ThinLocal)
    ensures v.Integer? || v.OtherValue? ==> r == Err(Other("wrong data type for lto setting"))
    ensures v.Str? ==> r == (if v.s in LtoNames then Ok(LtoNames[v.s]) else Err(Other("lto setting has unknown string value")))
  {
    match v
    case Boolean(b) => Ok(if b then Fat else ThinLocal)
    case Str(s) =>
      if s == "off" || s == "n" || s == "no" then Ok(LtoNone)
      else if s == "thin" then Ok(Thin)
      else if s == "fat" || s == "on" || s == "y" || s == "yes" || s == "true" then Ok(Fat)
      else if s == "false" then Ok(ThinLocal)
      else Err(Other("lto setting has unknown string value"))
    case _ => Err(Other("wrong data type for lto setting"))
  }

  lemma LtoRoundTrip(l: LtoSetting)
    ensures LtoFromValue(LtoToValue(l)) == Ok(l)
  {
  }

  /** The string spellings of a boolean mean the same as the boolean. */
  lemma LtoBoolSpellingsAgree(b: bool)
    ensures LtoFromValue(Str(if b then "true" else "false")) == LtoFromValue(Boolean(b))
  {
  }
}
