/**
 * The rule catalogue of the cleaner, rule by rule and in source order:
 * the `removals` list (cleaning_utils.py lines 39-48) and the
 * `substitutions` list (cleaning_utils.py lines 50-2643), grouped by the
 * headings of the source. Whole-word rules are concrete `Words` patterns;
 * rules built from the `sep` sub-pattern keep their regex text as a
 * `Composite` pattern. Rules written as plain (not formatted) strings keep
 * `{sep}` as the five literal characters Python reads there.
 */
module SourceRules {
  import opened Patterns
  import opened Rules
  import opened Cleaner

  /** The separator sub-pattern: one or more spaces, one or more non-word characters, or a word boundary. */
  const Sep: string := @"(?: +|\W+|\b)"

  const Obscis := Removal("OBSCIS", Words(false, [Lit("obscis")], Unguarded, false))

  /**
   * One spelling of the MO suffix: initials `\w \w \w\w? \w`, then a two-digit
   * day and month and a four-digit year, each pair followed by a space or a
   * non-word character. `second` is the optional fourth letter.
   */
  function MoSpelling(second: seq<Atom>, afterDay: Atom, afterMonth: Atom): Alternative {
    [WordClass, SpaceClass, WordClass, SpaceClass, WordClass] + second
      + [SpaceClass, WordClass, SpaceClass, DigitClass, DigitClass, afterDay]
      + [DigitClass, DigitClass, afterMonth, DigitClass, DigitClass, DigitClass, DigitClass]
  }

  /** The MO suffix, its optional letter and its separators tried in the order Python backtracks. */
  const MoSuffix := Removal("MO Suffix", Words(true, [
    MoSpelling([WordClass], Char(' '), Char(' ')),
    MoSpelling([WordClass], Char(' '), NonWordClass),
    MoSpelling([WordClass], NonWordClass, Char(' ')),
    MoSpelling([WordClass], NonWordClass, NonWordClass),
    MoSpelling([], Char(' '), Char(' ')),
    MoSpelling([], Char(' '), NonWordClass),
    MoSpelling([], NonWordClass, Char(' ')),
    MoSpelling([], NonWordClass, NonWordClass)
  ], Unguarded, false))

  /** Statute numbers: variable-width runs with backtracking, left to the oracle. */
  const StatutePrefix := Removal("Statute Prefix", Composite(@"\S{1,2}\s\d\S{0,3}\.\d\S{0,3}\.\d\S{0,3}(?:\.\d?\S{0,3}?)?"))

  const Removals: seq<Removal> := [Obscis, MoSuffix, StatutePrefix]

  const LessThan2 := Substitution("Less Than 2", Words(true, [Lit("lt")], FollowedByDigit, true), "less than ")

  const GreaterThan2 := Substitution("Greater Than 2", Words(true, [Lit("gt")], FollowedByDigit, true), "greater than ")

  const WithOut := Substitution(
      "With Out",
      Words(true, [Lit("w{sep}o"), Lit("w{sep}out")], Unguarded, true),
      "without")

  const Illegal := Substitution(
      "illegal",
      Words(true, [Lit("ill"), Lit("illeg"), Lit("illgl")], NotPrecededBy("mentally "), true),
      "illegal")

  const Attempted2 := Substitution("Attempted 2", Words(true, [Lit("at")], NotFollowedBy(" risk"), true), "attempted")

  const Year := Substitution("year", Words(true, [Lit("yr")], Unguarded, true), "year")

  const Year2 := Substitution("year 2", Words(false, [Lit("yr")], NotAtDigit, true), " year")

  const Offense := Substitution(
      "offense",
      Words(
        true, [
          Lit("offense"),
          Lit("offen"),
          Lit("off"),
          Lit("offe")
        ], NotPrecededBy("by "), true),
      "offense")

  const AssaultAndBattery2 := Substitution(
      "assault and battery 2",
      Composite(@"\b(?:a\&b|a" + Sep + @"b|a \& b|ab)(?!\Wc)\b"),
      "assault and battery")

  const AssaultAndBattery2Again := Substitution(
      "assault and battery 2",
      Composite(@"\b(?:a\&b|a" + Sep + @"b|a \& b|ab)(?! c)\b"),
      "assault and battery")

  const Heroine := Substitution("heroine", Words(true, [Lit("her")], Unguarded, true), "heroine")

  const HeroineAgain := Substitution("heroine", Words(true, [Lit("her")], Unguarded, true), "heroine")

  /** Rules on less than / greater than (cleaning_utils.py lines 52-57). */
  const LessGreaterTerms: seq<Substitution> := [
    Substitution("Less Than", Words(true, [Lit("&LT;"), Lit("lt")], Unguarded, true), " less than "),
    LessThan2,
    Substitution("Less Than 3", Words(false, [Lit("<")], Unguarded, false), " less than "),
    Substitution(
      "Greater Than",
      Words(true, [Lit("&GT;"), Lit("gt"), Lit(">")], Unguarded, true),
      " greater than "),
    GreaterThan2,
    Substitution("Greater Than 3", Words(false, [Lit(">")], Unguarded, false), " greater than ")
  ]

  /** Rules on "with" abbreviations (cleaning_utils.py lines 59-235). */
  const WithTerms: seq<Substitution> := [
    WithOut,
    Substitution("With Out 2", Words(true, [Lit("wo")], Unguarded, true), "without"),
    Substitution("Within", Composite(@"\bw" + Sep + @"(?:i|in)\b"), "within", 5),
    Substitution("With Intent", Composite(@"\bw" + Sep + @"\s?in?t?e?n?t?\b"), "with intent"),
    Substitution("with a", Composite(@"\bw" + Sep + @"a\b"), "with a"),
    Substitution("with health", Composite(@"\bw" + Sep + @"health\b"), "with health"),
    Substitution("with own", Composite(@"\bw" + Sep + @"own\b"), "with own"),
    Substitution("with report", Composite(@"\bw" + Sep + @"report\b"), "with report"),
    Substitution("with license", Composite(@"\bw" + Sep + @"license\b"), "with license"),
    Substitution("with murder", Composite(@"\bw" + Sep + @"murder\b"), "with murder"),
    Substitution("with injury", Composite(@"\bw" + Sep + @"(?:injury|inj|injry)\b"), "with injury"),
    Substitution("with turned", Composite(@"\bw" + Sep + @"turned\b"), "with turned"),
    Substitution("with altered", Composite(@"\bw" + Sep + @"alt\b"), "with altered"),
    Substitution("with deadly", Composite(@"\bw" + Sep + @"deadly\b"), "with deadly"),
    Substitution(
      "with dangerous weapon",
      Composite(@"\b(?:with|w)" + Sep + @"(?:dangerous|d)" + Sep + @"(?:weapon|wpn|weapn|weap)\b"),
      "with dangerous weapon",
      5),
    Substitution(
      "with child",
      Composite(@"\b(?:with|w)" + Sep + @"(?:child|chi|chld)\b"),
      "with child"),
    Substitution("with minor", Composite(@"\bw" + Sep + @"minor\b"), "with minor"),
    Substitution("with kidnapping", Composite(@"\bw" + Sep + @"kidnapping\b"), "with kidnapping"),
    Substitution("with agency", Composite(@"\bw" + Sep + @"agency\b"), "with agency"),
    Substitution("with firearm", Composite(@"\bw" + Sep + @"firearm\b"), "with firearm"),
    Substitution(
      "with weapon",
      Composite(@"\bw" + Sep + @"(?:weapon|wpn|weapn|weap)\b"),
      "with weapon"),
    Substitution("with knife", Composite(@"\bw" + Sep + @"knife\b"), "with knife"),
    Substitution("with force", Composite(@"\bw" + Sep + @"force\b"), "with force"),
    Substitution(
      "with extenuating circumstances",
      Composite(@"\bw" + Sep + @"ext" + Sep + @"circumstances\b"),
      "with extenuating circumstances"),
    Substitution("with prior", Composite(@"\bw" + Sep + @"prior\b"), "with prior"),
    Substitution("with previous", Composite(@"\bw" + Sep + @"previous\b"), "with previous"),
    Substitution(
      "with domestic violence",
      Composite(@"\bw" + Sep + @"dv\b"),
      "with domestic violence"),
    Substitution("with suspended", Composite(@"\bw" + Sep + @"suspended\b"), "with suspended"),
    Substitution("vehicle with", Composite(@"\bvehicle" + Sep + @"w" + Sep), "vehicle with"),
    Substitution(
      "possession with",
      Composite(@"\b(?:possession|possess|poss)" + Sep + @"w" + Sep),
      "possession with"),
    Substitution(
      "possession with intent",
      Composite(@"\bp" + Sep + @"with" + Sep + @"intent"),
      "possession with intent",
      30),
    Substitution("neglect with", Composite(@"\bneglect" + Sep + @"w" + Sep), "neglect with"),
    Substitution("cooperate with", Composite(@"\bcooperate" + Sep + @"w" + Sep), "cooperate with"),
    Substitution(
      "interfere with",
      Composite(@"\b(?:inter|interfere)" + Sep + @"w" + Sep),
      "interfere with"),
    Substitution("tamper with", Composite(@"\btamper" + Sep + @"w" + Sep), "tamper with"),
    Substitution("tampering with", Composite(@"\btampering" + Sep + @"w" + Sep), "tampering with"),
    Substitution("assault with", Composite(@"\bassault" + Sep + @"w" + Sep), "assault with")
  ]

  /** Rules on firearms (cleaning_utils.py lines 237-251). */
  const FirearmTerms: seq<Substitution> := [
    Substitution(
      "firearm with altered identification numbers",
      Composite(@"\bfirearm" + Sep + @"(?:with|w)" + Sep + @"alter\b"),
      "firearm with altered identification numbers"),
    Substitution("firearm", Composite(@"\bf" + Sep + @"a\b"), "firearm"),
    Substitution(
      "intimidation",
      Words(true, [Lit("intim"), Lit("intimid")], Unguarded, true),
      "intimidation")
  ]

  /** Rules on domestic violence, protection and restraining orders (cleaning_utils.py lines 253-278). */
  const DomesticViolenceTerms: seq<Substitution> := [
    Substitution(
      "protective order",
      Composite(@"\b(?:protective|protection|prot)" + Sep + @"(?:order|ord|or)\b"),
      "protective order"),
    Substitution(
      "domestic violence protective order",
      Words(true, [Lit("dvpo")], Unguarded, true),
      "domestic violence protective order"),
    Substitution("domestic", Words(true, [Lit("dom")], Unguarded, true), "domestic", 20),
    Substitution(
      "domestic violence",
      Words(true, [Lit("dv")], Unguarded, true),
      "domestic violence"),
    Substitution("domestic violence 2", Composite(@"\bd" + Sep + @"v\b"), "domestic violence"),
    Substitution("witness testimony", Composite(@"\bwit" + Sep + @"tes\b"), "witness testimony")
  ]

  /** Rules on convictions (cleaning_utils.py lines 280-289). */
  const ConvictionTerms: seq<Substitution> := [
    Substitution(
      "misdemeanor conviction",
      Composite(@"\b(?:misdemeanor|misd)" + Sep + @"(?:convic|conv)\b"),
      "misdemeanor conviction"),
    Substitution(
      "prior conviction",
      Composite(@"\b(?:prior|pr|pri)" + Sep + @"(?:convic|conv)\b"),
      "prior conviction")
  ]

  /** Rules on general terms (cleaning_utils.py lines 293-510). */
  const GeneralTerms: seq<Substitution> := [
    Illegal,
    Substitution("commercial fish", Composite(@"\bcomm" + Sep + @"fish\b"), "commercial fish"),
    Substitution("vessel", Words(true, [Lit("vess")], Unguarded, true), "vessel"),
    Substitution(
      "traffic control device",
      Composite(@"\btraff" + Sep + @"control" + Sep + @"dev\b"),
      "traffic control device"),
    Substitution("non-culpable", Words(true, [Lit("nonculp")], Unguarded, true), "non-culpable"),
    Substitution("prohibited", Words(true, [Lit("prohib")], Unguarded, true), "prohibited"),
    Substitution("nuisance", Words(true, [Lit("nuis")], Unguarded, true), "nuisance"),
    Substitution("obstruction", Words(true, [Lit("obstr")], Unguarded, true), "obstruction"),
    Substitution("pedestrian", Words(true, [Lit("ped")], Unguarded, true), "pedestrian"),
    Substitution("conduct", Words(true, [Lit("cond")], Unguarded, true), "conduct", 20),
    Substitution("subsequent", Words(true, [Lit("subsq")], Unguarded, true), "subsequent"),
    Substitution(
      "disturbing the peace",
      Words(true, [Lit("dist{sep}peace")], Unguarded, true),
      "disturbing the peace"),
    Substitution(
      "offender accountability act",
      Words(true, [Lit("oaa")], Unguarded, true),
      "offender accountability act"),
    Substitution("against", Words(true, [Lit("agnst"), Lit("agin")], Unguarded, true), "against"),
    Substitution("child", Words(true, [Lit("chil"), Lit("chld")], Unguarded, true), "child"),
    Substitution("school", Words(true, [Lit("schl")], Unguarded, true), "school"),
    Substitution("multiple", Words(true, [Lit("mult")], Unguarded, true), "multiple"),
    Substitution("assailant", Words(true, [Lit("assail")], Unguarded, true), "assailant"),
    Substitution(
      "public disturbance",
      Words(
        true, [
          Lit("public{sep}disturbance"),
          Lit("public{sep}disturb"),
          Lit("public{sep}dist"),
          Lit("pub{sep}disturbance"),
          Lit("pub{sep}disturb"),
          Lit("pub{sep}dist"),
          Lit("publ{sep}disturbance"),
          Lit("publ{sep}disturb"),
          Lit("publ{sep}dist")
        ], Unguarded, true),
      "public disturbance"),
    Substitution(
      "interfere",
      Words(true, [Lit("interf"), Lit("interfer")], Unguarded, true),
      "interfere"),
    Substitution("obstructing", Words(true, [Lit("ob")], Unguarded, true), "obstructing"),
    Substitution(
      "law enforcement officer",
      Words(true, [Lit("leo")], Unguarded, true),
      "law enforcement officer"),
    Substitution("officer", Words(true, [Lit("offcr"), Lit("ofcr")], Unguarded, true), "officer"),
    Substitution(
      "minor",
      Words(true, [Lit("min"), Lit("minr"), Lit("mnr")], Unguarded, true),
      "minor"),
    Substitution(
      "distance within 300 feet of park",
      Composite(@"\bdist" + Sep + @"300" + Sep + @"park\b"),
      "distance within 300 feet of park",
      5),
    Substitution(
      "distance within 300",
      Composite(Sep + @"dist" + Sep + @"w" + Sep + @"i" + Sep + @"300\b"),
      "distance within 300",
      5),
    Substitution("major", Words(true, [Lit("majr")], Unguarded, true), "major"),
    Substitution("willful", Words(true, [Lit("wilfl"), Lit("wlfl")], Unguarded, true), "willful"),
    Substitution(
      "issue worthless checks",
      Composite(@"\b(?:issue|iss)" + Sep + @"(?:worthless|wrthlss|wrtls)" + Sep + @"(?:checks|cks)\b"),
      "worthless"),
    Substitution(
      "issue multiple worthless checks",
      Composite(@"\b(?:issue|iss)" + Sep + @"(?:multiple|mltpl)" + Sep + @"(?:worthless|wrthlss|wrtls)" + Sep + @"(?:checks|cks)\b"),
      "worthless"),
    Substitution(
      "unauthorized",
      Words(true, [Lit("unauth"), Lit("unau"), Lit("unauthd")], Unguarded, true),
      "unauthorized"),
    Substitution(
      "child support",
      Words(
        true, [
          Lit("child{sep}support"),
          Lit("child{sep}supp"),
          Lit("child{sep}sup"),
          Lit("chld{sep}support"),
          Lit("chld{sep}supp"),
          Lit("chld{sep}sup"),
          Lit("chi{sep}support"),
          Lit("chi{sep}supp"),
          Lit("chi{sep}sup")
        ], Unguarded, true),
      "child support"),
    Substitution(
      "unlawful",
      Words(
        true, [
          Lit("unlawfully"),
          Lit("unlaw"),
          Lit("unlawfl"),
          Lit("unlawf"),
          Lit("unlwfl"),
          Lit("unl")
        ], Unguarded, true),
      "unlawful"),
    Substitution(
      "Possession",
      Words(true, [Lit("possess"), Lit("poss"), Lit("pos")], Unguarded, true),
      "possession"),
    Substitution(
      "Abetting",
      Words(true, [Lit("abett"), Lit("abetted")], Unguarded, true),
      "Abetting"),
    Substitution(
      "emergency",
      Words(true, [Lit("emerg"), Lit("emer")], Unguarded, true),
      "emergency",
      20),
    Substitution("Attempted", Words(true, [Lit("att"), Lit("atmpt")], Unguarded, true), "attempted"),
    Attempted2,
    Substitution("Battery", Words(true, [Lit("batt")], Unguarded, true), "battery"),
    Substitution(
      "Violation of Probation",
      Words(true, [Lit("vop")], Unguarded, true),
      "violation of probation"),
    Substitution(
      "Conspiracy",
      Words(
        true, [
          Lit("consp"),
          Lit("conspi"),
          Lit("conspira"),
          Lit("conspirc"),
          Lit("consprc"),
          Lit("consprcy"),
          Lit("cnsprcy"),
          Lit("conspr")
        ], Unguarded, true),
      "conspiracy"),
    Substitution("Property", Words(true, [Lit("prop")], Unguarded, true), "property"),
    Substitution(
      "public disturbance",
      Composite(@"\b(?:public|pub|publ)" + Sep + @"(?:disturbance|dist)\b"),
      "public disturbance"),
    Substitution("Criminal", Words(true, [Lit("crim")], Unguarded, true), "criminal"),
    Substitution("License", Words(true, [Lit("lic")], Unguarded, true), "license"),
    Substitution("Credit Card", Words(true, [Lit("cc")], Unguarded, true), "credit card"),
    Substitution(
      "Credit Card 2",
      Words(true, [Lit("cred{sep}crd")], Unguarded, true),
      "credit card"),
    Substitution("exchange", Words(true, [Lit("exch")], Unguarded, true), "exchange"),
    Substitution("electric power", Composite(@"\belec" + Sep + @"pwr\b"), "electric power"),
    Substitution("commit false", Composite(@"\bcom?" + Sep + @"false\b"), "commit false", 5)
  ]

  /** Rules on vehicles (cleaning_utils.py lines 512-553). */
  const VehicleTerms: seq<Substitution> := [
    Substitution("Vehicle", Words(true, [Lit("veh"), Lit("vehi")], Unguarded, true), "vehicle"),
    Substitution("Vehicles", Words(true, [Lit("vehs")], Unguarded, true), "vehicles"),
    Substitution(
      "commercial motor vehicle",
      Words(true, [Lit("cmv")], Unguarded, true),
      "commercial motor vehicle"),
    Substitution(
      "motor vehicle",
      Composite(@"\b(?:mtr|mot)" + Sep + @"(?:vehicle|veh)\b"),
      "motor vehicle"),
    Substitution("motor vehicle 2", Composite(@"\bm" + Sep + @"v\b"), "motor vehicle"),
    Substitution(
      "motor vehicle 3",
      Words(true, [Lit("mtv"), Lit("mv")], Unguarded, true),
      "motor vehicle"),
    Substitution("odometer", Words(true, [Lit("odom")], Unguarded, true), "odometer"),
    Substitution("red light", Composite(@"\bred" + Sep + @"light\b"), "red light"),
    Substitution(
      "vehicle sound system",
      Composite(@"\bveh" + Sep + @"snd" + Sep + @"sys\b"),
      "vehicle sound system",
      20)
  ]

  /** Rules on assault (cleaning_utils.py lines 555-604). */
  const AssaultTerms: seq<Substitution> := [
    Substitution("Assault", Words(true, [Lit("asslt"), Lit("aslt")], Unguarded, true), "assault"),
    Substitution("Assault 2", Words(true, [Lit("ass")], Unguarded, true), "assault"),
    Substitution("Mentally", Words(true, [Lit("ment")], Unguarded, true), "mentally"),
    Substitution("mentally ill", Words(true, [Lit("mnt{sep}ill")], Unguarded, true), "mentally ill"),
    Substitution("Unknown", Words(true, [Lit("unk")], Unguarded, true), "unknown"),
    Substitution(
      "cohabitation",
      Words(true, [Lit("coh"), Lit("cohbt")], Unguarded, true),
      "cohabitation"),
    Substitution("Statement", Words(true, [Lit("stmt")], Unguarded, true), "statement"),
    Substitution(
      "Degree",
      Words(true, [Lit("degre"), Lit("degr"), Lit("dege"), Lit("deg")], Unguarded, true),
      "degree"),
    Substitution(
      "Felony",
      Words(
        true, [
          Lit("fe"),
          Lit("fel"),
          Lit("felo"),
          Lit("felny"),
          Lit("fl"),
          Lit("flny")
        ], Unguarded, true),
      "felony"),
    Substitution("misdemeanor", Words(true, [Lit("misd")], Unguarded, true), "misdemeanor")
  ]

  /** Rules on ages (cleaning_utils.py lines 606-630). */
  const AgeTerms: seq<Substitution> := [
    Substitution("years of age", Words(true, [Lit("yoa")], Unguarded, true), "years of age"),
    Year,
    Year2,
    Substitution("elderly", Words(true, [Lit("eldrly")], Unguarded, true), "elderly"),
    Substitution("under", Words(true, [Lit("und"), Lit("undr")], Unguarded, true), "under")
  ]

  /** Rules on ages of females (cleaning_utils.py lines 632-666). */
  const FemaleAgeTerms: seq<Substitution> := [
    Substitution("female", Words(true, [Lit("fem")], Unguarded, true), "female"),
    Substitution("age female", Composite(@"\bage" + Sep + @"f\b"), "age female"),
    Substitution("old female", Composite(@"\bold" + Sep + @"f\b"), "old female"),
    Substitution("older female", Composite(@"\bolder" + Sep + @"f\b"), "older female"),
    Substitution("13 female", Composite(@"\b13" + Sep + @"f\b"), "13 female"),
    Substitution("15 female", Composite(@"\b15" + Sep + @"f\b"), "15 female"),
    Substitution("17 female", Composite(@"\b17" + Sep + @"f\b"), "17 female")
  ]

  /** Rules on ages of males (cleaning_utils.py lines 668-697). */
  const MaleAgeTerms: seq<Substitution> := [
    Substitution("age male", Composite(@"\bage" + Sep + @"m\b"), "age male"),
    Substitution("old male", Composite(@"\bold" + Sep + @"m\b"), "old male"),
    Substitution("older male", Composite(@"\bolder" + Sep + @"m\b"), "older male"),
    Substitution("13 male", Composite(@"\b13" + Sep + @"m\b"), "13 male"),
    Substitution("15 male", Composite(@"\b15" + Sep + @"m\b"), "15 male"),
    Substitution("17 male", Composite(@"\b17" + Sep + @"m\b"), "17 male")
  ]

  /** Rules on robbery and what follows it (cleaning_utils.py lines 699-814). */
  const RobberyTerms: seq<Substitution> := [
    Substitution("Robbery", Words(true, [Lit("robb")], Unguarded, true), "robbery"),
    Substitution(
      "Attempted Robbery",
      Composite(@"\battempted" + Sep + @"(?:rob|robb)\b"),
      "attempted robbery"),
    Substitution(
      "Detainer Robbery",
      Composite(@"\bdetainer" + Sep + @"(?:rob|robb)\b"),
      "detainer robbery"),
    Substitution(
      "Aggravated",
      Words(true, [Lit("agg"), Lit("aggrav"), Lit("aggr"), Lit("aggravted")], Unguarded, true),
      "aggravated"),
    Substitution("Forced", Words(true, [Lit("frc")], Unguarded, true), "forced"),
    Substitution("Danger", Words(true, [Lit("dng")], Unguarded, true), "danger"),
    Substitution("Abetting", Words(true, [Lit("abet")], Unguarded, true), "abetting"),
    Substitution(
      "Acquaintance",
      Words(true, [Lit("acquant"), Lit("acq"), Lit("acquaint"), Lit("acquain")], Unguarded, true),
      "acquaintance"),
    Substitution(
      "Breaking and Entering",
      Words(true, [Lit("B & E"), Lit("B &E"), Lit("B& E"), Lit("B&E")], Unguarded, true),
      "breaking and entering"),
    Substitution("Building", Words(true, [Lit("bldg")], Unguarded, true), "building"),
    Substitution("Adult", Words(true, [Lit("adlt")], Unguarded, true), "adult"),
    Substitution("Deliver", Words(true, [Lit("del")], Unguarded, true), "deliver"),
    Substitution("Family", Words(true, [Lit("fam")], Unguarded, true), "family"),
    Substitution("Burglary", Words(true, [Lit("burg")], Unguarded, true), "burglary"),
    Substitution("Murder", Words(true, [Lit("mur")], Unguarded, true), "murder"),
    Substitution(
      "conspiracy to commit",
      Composite(@"\bconsp" + Sep + @"comm\b"),
      "conspiracy to commit"),
    Substitution("Representation", Words(true, [Lit("rep")], Unguarded, true), "representation"),
    Substitution("Previous", Words(true, [Lit("prev")], Unguarded, true), "previous"),
    Substitution("Common", Words(true, [Lit("com")], Unguarded, true), "common"),
    Substitution("of a", Words(true, [Lit("ofa")], Unguarded, true), "of a"),
    Substitution("violent", Words(true, [Lit("viol")], Unguarded, true), "violent"),
    Substitution("perform", Words(true, [Lit("perf")], Unguarded, true), "perform"),
    Substitution(
      "household",
      Words(true, [Lit("hh"), Lit("hsehld"), Lit("hhld")], Unguarded, true),
      "household"),
    Substitution("Other", Words(true, [Lit("oth")], Unguarded, true), "other")
  ]

  /** Rules on weapons (cleaning_utils.py lines 816-828). */
  const WeaponTerms: seq<Substitution> := [
    Substitution(
      "Weapon",
      Words(
        true, [
          Lit("wea"),
          Lit("wpn"),
          Lit("weapn"),
          Lit("weap"),
          Lit("weapo")
        ], Unguarded, true),
      "weapon",
      20),
    Substitution(
      "Weapons",
      Words(
        true, [
          Lit("weas"),
          Lit("wpns"),
          Lit("weapns"),
          Lit("weaps"),
          Lit("weapos")
        ], Unguarded, true),
      "weapons",
      20),
    Substitution(
      "dangerous weapon",
      Words(true, [Lit("dwpn"), Lit("dw")], Unguarded, true),
      "dangerous weapon"),
    Substitution("dangerous weapon 2", Composite(@"\bd" + Sep + @"(?:w|wpn)\b"), "dangerous weapon"),
    Substitution(
      "concealed weapon",
      Composite(@"\bconcealed" + Sep + @"(?:w|wpn)\b"),
      "concealed weapon")
  ]

  /** Rules on harm (cleaning_utils.py lines 830-879). */
  const HarmTerms: seq<Substitution> := [
    Substitution("Bodily Harm", Composite(@"\b(?:bod" + Sep + @"ha?rm|bh)\b"), "bodily harm"),
    Substitution("physical", Words(true, [Lit("phy")], Unguarded, true), "physical"),
    Substitution("harmful", Words(true, [Lit("harmfl")], Unguarded, true), "harmful"),
    Substitution("Great Bodily", Composite(@"\b(?:gr|grt)" + Sep + @"bodily\b"), "great bodily"),
    Substitution(
      "Great Bodily Injury",
      Words(true, [Lit("gbi")], Unguarded, true),
      "great bodily injury"),
    Substitution(
      "Substantial Bodily Harm",
      Words(true, [Lit("sbh")], Unguarded, true),
      "substantial bodily harm"),
    Substitution("injury", Words(true, [Lit("injry"), Lit("inj")], Unguarded, true), "injury"),
    Substitution("inflict", Words(true, [Lit("inflt")], Unguarded, true), "inflict"),
    Substitution(
      "Great Bodily Harm",
      Composite(@"\bgr" + Sep + @"bod" + Sep + @"harm\b"),
      "great bodily harm"),
    Substitution(
      "Great Bodily Harm 2",
      Words(true, [Lit("gbh")], Unguarded, true),
      "great bodily harm")
  ]

  /** Rules on persons and what follows them (cleaning_utils.py lines 881-1050). */
  const PersonTerms: seq<Substitution> := [
    Substitution("Personal", Words(true, [Lit("pers")], Unguarded, true), "personal"),
    Substitution("persons", Words(true, [Lit("prsns")], Unguarded, true), "persons"),
    Substitution(
      "person",
      Words(true, [Lit("prsn"), Lit("per"), Lit("perso")], Unguarded, true),
      "person"),
    Substitution("election day", Composite(@"\belec" + Sep + @"day\b"), "election day"),
    Substitution("temporary", Words(true, [Lit("temp")], Unguarded, true), "temporary"),
    Substitution("improper", Words(true, [Lit("improp")], Unguarded, true), "improper"),
    Substitution("false", Words(true, [Lit("fls")], Unguarded, true), "false"),
    Substitution("responsibility", Words(true, [Lit("resp")], Unguarded, true), "responsibility"),
    Substitution("advertise", Words(true, [Lit("ad")], Unguarded, true), "advertise"),
    Substitution(
      "imprisonment",
      Words(true, [Lit("imprison"), Lit("impris"), Lit("imprsn")], Unguarded, true),
      "imprisonment"),
    Substitution("prohibited", Words(true, [Lit("proh")], Unguarded, true), "prohibited"),
    Substitution(
      "under influence",
      Composite(@"\bunder" + Sep + @"(?:infl|influ)\b"),
      "under influence",
      5),
    Substitution("stolen", Words(true, [Lit("stln")], Unguarded, true), "stolen"),
    Substitution("years", Words(true, [Lit("yrs")], Unguarded, true), "years"),
    Substitution("intent", Words(true, [Lit("int")], Unguarded, true), "intent"),
    Substitution("passage", Words(true, [Lit("passg")], Unguarded, true), "passage"),
    Substitution("withdraw", Words(true, [Lit("wit")], Unguarded, true), "withdraw"),
    Substitution(
      "manufacturing or delivering",
      Words(true, [Lit("man") + [NonWordClass] + Lit("del")], Unguarded, true),
      "manufacturing delivering"),
    Substitution(
      "minimum mandatory",
      Words(true, [Lit("min") + [NonWordClass] + Lit("man")], Unguarded, true),
      "minimum mandatory"),
    Substitution("stranger", Words(true, [Lit("strngr"), Lit("str")], Unguarded, true), "stranger"),
    Substitution("personal use", Words(true, [Lit("pers use")], Unguarded, true), "personal use"),
    Substitution("force", Words(true, [Lit("forc"), Lit("frc")], Unguarded, true), "force"),
    Substitution(
      "operate",
      Words(true, [Lit("oper"), Lit("op"), Lit("opr")], Unguarded, true),
      "operate"),
    Substitution("occupied", Words(true, [Lit("occ")], Unguarded, true), "occupied"),
    Substitution(
      "health care facility",
      Words(true, [Lit("health{sep}care{sep}fac")], Unguarded, true),
      "health care facility",
      5),
    Substitution("residence", Words(true, [Lit("res")], Unguarded, true), "residence"),
    Substitution(
      "terrorism threats",
      Composite(@"\bterr" + Sep + @"(?:thre|thrts)\b"),
      "terrorism threats"),
    Substitution("false report", Composite(@"\bfals" + Sep + @"rprt\b"), "false report"),
    Substitution("government", Words(true, [Lit("govt")], Unguarded, true), "government"),
    Substitution("advocating", Words(true, [Lit("advoc")], Unguarded, true), "advocating"),
    Substitution(
      "government property",
      Words(true, [Lit("gov{sep}property")], Unguarded, true),
      "government property"),
    Substitution(
      "general assembly",
      Words(true, [Lit("gen{sep}assembly")], Unguarded, true),
      "general assembly"),
    Offense,
    Substitution(
      "information",
      Words(true, [Lit("info"), Lit("infor")], Unguarded, true),
      "information")
  ]

  /** Rules on lewd conduct (cleaning_utils.py lines 1052-1210). */
  const LewdTerms: seq<Substitution> := [
    Substitution(
      "pornography",
      Words(true, [Lit("porn"), Lit("porno")], Unguarded, true),
      "pornography"),
    Substitution("compelling", Words(true, [Lit("compel")], Unguarded, true), "compelling"),
    Substitution("prostitution", Words(true, [Lit("prostit")], Unguarded, true), "prostitution"),
    Substitution("computer", Words(true, [Lit("computr")], Unguarded, true), "computer"),
    Substitution("incapable", Words(true, [Lit("incap")], Unguarded, true), "incapable"),
    Substitution("juvenile", Words(true, [Lit("juv"), Lit("juven")], Unguarded, true), "juvenile"),
    Substitution(
      "involving",
      Words(true, [Lit("involv"), Lit("invlv")], Unguarded, true),
      "involving"),
    Substitution("equipment", Words(true, [Lit("equip")], Unguarded, true), "equipment"),
    Substitution("hazardous", Words(true, [Lit("haz")], Unguarded, true), "hazardous"),
    Substitution(
      "assault and battery",
      Composite(@"\b(?:a\&b|a" + Sep + @"b|a \& b|ab)(?!c)\b"),
      "assault and battery"),
    AssaultAndBattery2,
    AssaultAndBattery2Again,
    Substitution(
      "promote distribution",
      Composite(@"\bpromote" + Sep + @"distrb\b"),
      "promote distribution"),
    Substitution(
      "child molestation first degree",
      Composite(@"\b(?:child|chld|ch)" + Sep + @"(?:molestation|molest|mol)" + Sep + @"1\b"),
      "child molestation first degree"),
    Substitution(
      "child molestation second degree",
      Composite(@"\b(?:child|chld|ch)" + Sep + @"(?:molestation|molest|mol)" + Sep + @"2\b"),
      "child molestation second degree"),
    Substitution(
      "child molestation third degree",
      Composite(@"\b(?:child|chld|ch)" + Sep + @"(?:molestation|molest|mol)" + Sep + @"3\b"),
      "child molestation third degree"),
    Substitution(
      "child molestation",
      Composite(@"\b(?:child|chld|ch)" + Sep + @"(?:molestation|molest|mol)\b"),
      "child molestation",
      5),
    Substitution(
      "molestation",
      Words(true, [Lit("molestation"), Lit("molest"), Lit("mol")], Unguarded, true),
      "molestation"),
    Substitution(
      "indecent conduct exposure",
      Composite(@"\bind" + Sep + @"cond" + Sep + @"expos\b"),
      "indecent conduct exposure"),
    Substitution("indecent", Words(true, [Lit("indec")], Unguarded, true), "indecent"),
    Substitution("indecent liberties", Composite(@"\bind" + Sep + @"lib\b"), "indecent liberties"),
    Substitution("moving", Words(true, [Lit("mov")], Unguarded, true), "moving"),
    Substitution("depiction", Words(true, [Lit("dptn")], Unguarded, true), "depiction"),
    Substitution("child luring", Composite(@"\bchil" + Sep + @"lrng\b"), "child luring"),
    Substitution(
      "dissemination",
      Words(true, [Lit("dissm"), Lit("dissem")], Unguarded, true),
      "dissemination"),
    Substitution(
      "possession of depictions of minor engaged in sexually explicit conduct",
      Composite(@"\bposs" + Sep + @"(?:depict|dep)" + Sep + @"(?:minor|min)" + Sep + @"eng" + Sep + @"sex" + Sep + @"(?:exp|expct)" + Sep + @"conduct\b"),
      "possession of depictions of minor engaged in sexually explicit conduct",
      3),
    Substitution(
      "dealing of depictions of minor engaged in sexually explicit conduct",
      Composite(@"\bdeal" + Sep + @"(?:depict|dep)" + Sep + @"(?:minor|min)" + Sep + @"eng" + Sep + @"sex" + Sep + @"(?:exp|expct)" + Sep + @"conduct\b"),
      "dealing of depictions of minor engaged in sexually explicit conduct",
      3),
    Substitution(
      "viewing of depictions of minor engaged in sexually explicit conduct",
      Composite(@"\bview" + Sep + @"(?:depict|dep)" + Sep + @"(?:minor|min)" + Sep + @"eng" + Sep + @"sex" + Sep + @"(?:exp|expct)" + Sep + @"conduct\b"),
      "viewing of depictions of minor engaged in sexually explicit conduct",
      3),
    Substitution(
      "online sexual corruption of a child",
      Composite(@"\bonline" + Sep + @"sex" + Sep + @"corrupt" + Sep + @"child\b"),
      "online sexual corruption of a child"),
    Substitution(
      "lewd or lascivious act",
      Composite(@"\b(?:L\&L|L" + Sep + @"L)\b"),
      "lewd or lascivious act"),
    Substitution("exposure", Words(true, [Lit("expos")], Unguarded, true), "exposure")
  ]

  /** Rules on sexual offenses (cleaning_utils.py lines 1212-1499). */
  const SexualOffenseTerms: seq<Substitution> := [
    Substitution(
      "Criminal Sexual Conduct",
      Words(true, [Lit("csc")], Unguarded, true),
      "criminal sexual conduct"),
    Substitution("sexual", Words(true, [Lit("sexl")], Unguarded, true), "sexual"),
    Substitution("explicit", Words(true, [Lit("explct")], Unguarded, true), "explicit"),
    Substitution(
      "sexual offense",
      Composite(@"\b(?:sexual|sex)" + Sep + @"(?:offense|offen|off)\b"),
      "sexual offense"),
    Substitution(
      "sexual offenses",
      Composite(@"\b(?:sexual|sex)" + Sep + @"(?:offense|offen|off)s\b"),
      "sexual offenses"),
    Substitution(
      "sexual assault",
      Composite(@"\b(?:sexual|sex)" + Sep + @"(?:assault|assult|assualt|ass|asst)\b"),
      "sexual assault"),
    Substitution(
      "sexual contact",
      Composite(@"\b(?:sexual|sex)" + Sep + @"(?:contact)\b"),
      "sexual contact"),
    Substitution(
      "sexual act",
      Composite(@"\b(?:sexual|sex)" + Sep + @"(?:act|acts)\b"),
      "sexual act"),
    Substitution("sexual act 2", Words(true, [Lit("sxact")], Unguarded, true), "sexual act"),
    Substitution(
      "sexual abuse",
      Composite(@"\b(?:sexual|sex)" + Sep + @"(?:abuse|ab)\b"),
      "sexual abuse"),
    Substitution(
      "commit sex abuse",
      Composite(@"\bcomm" + Sep + @"sex" + Sep + @"abuse\b"),
      "commit sex abuse"),
    Substitution(
      "commit sex act",
      Composite(@"\bcomm" + Sep + @"sex" + Sep + @"act\b"),
      "commit sex act"),
    Substitution(
      "commit sex abuse minor",
      Words(true, [Lit("commsexabuseminor")], Unguarded, true),
      "commit sex abuse minor",
      20),
    Substitution(
      "sexual battery",
      Composite(@"\b(?:sexual|sex)" + Sep + @"(?:battery|batt|bat)\b"),
      "sexual battery"),
    Substitution(
      "sexual conduct",
      Composite(@"\b(?:sexual|sex)" + Sep + @"(?:conduct|cndct|cond|con)\b"),
      "sexual conduct"),
    Substitution(
      "sexual penetration",
      Composite(@"\b(?:sexual|sex)" + Sep + @"(?:penetration|pen)\b"),
      "sexual penetration"),
    Substitution(
      "sexual exploitation",
      Composite(@"\b(?:sexual|sex)" + Sep + @"(?:exploitation|exploit)\b"),
      "sexual exploitation"),
    Substitution(
      "sexual performance",
      Composite(@"\b(?:sexual|sex)" + Sep + @"(?:performance|perform)\b"),
      "sexual performance"),
    Substitution(
      "sexual imposition",
      Composite(@"\b(?:sexual|sex)" + Sep + @"(?:imposition|imp)\b"),
      "sexual imposition"),
    Substitution("sex with", Composite(@"\bsex" + Sep + @"w\b"), "sex with"),
    Substitution(
      "sex offender",
      Composite(@"\b(?:sexual|sex)" + Sep + @"(?:offender|offend|offndr|ofndr)\b"),
      "sex offender"),
    Substitution(
      "sexual predator",
      Composite(@"\b(?:sexual|sex)" + Sep + @"(?:predator|pred)\b"),
      "sexual predator"),
    Substitution(
      "voluntary sexual relations",
      Composite(@"\bvol" + Sep + @"sex" + Sep + @"rel\b"),
      "voluntary sexual relations"),
    Substitution("sex related", Composite(@"\bsex" + Sep + @"(?:reltd|rel)\b"), "sex related"),
    Substitution("sex related 2", Words(true, [Lit("sexreltd")], Unguarded, true), "sex related"),
    Substitution("statutory rape", Composite(@"\bstat" + Sep + @"rape\b"), "statutory rape"),
    Substitution(
      "rape first degree",
      Composite(@"\brape" + Sep + @"(?:1|1st|i)\b"),
      "rape first degree"),
    Substitution(
      "rape second degree",
      Composite(@"\brape" + Sep + @"(?:2|2nd|ii)\b"),
      "rape second degree"),
    Substitution(
      "rape third degree",
      Composite(@"\brape" + Sep + @"(?:3|3rd|iii)\b"),
      "rape third degree"),
    Substitution(
      "sodomy first degree",
      Composite(@"\bsodomy" + Sep + @"(?:1|1st|i)\b"),
      "sodomy first degree"),
    Substitution(
      "sodomy second degree",
      Composite(@"\bsodomy" + Sep + @"(?:2|2nd|ii)\b"),
      "sodomy second degree"),
    Substitution(
      "sodomy third degree",
      Composite(@"\bsodomy" + Sep + @"(?:3|3rd|iii)\b"),
      "sodomy third degree"),
    Substitution(
      "incest first degree",
      Composite(@"\bincest" + Sep + @"(?:1|1st|i)\b"),
      "incest first degree"),
    Substitution(
      "incest second degree",
      Composite(@"\bincest" + Sep + @"(?:2|2nd|ii)\b"),
      "incest second degree"),
    Substitution(
      "sex first degree",
      Composite(@"\bsex" + Sep + @"(?:1|1st|i)\b"),
      "sex first degree"),
    Substitution(
      "sex second degree",
      Composite(@"\bsex" + Sep + @"(?:2|2nd|ii)\b"),
      "sex second degree"),
    Substitution(
      "criminal sexual conduct first degree",
      Composite(@"\bcsc" + Sep + @"(?:1|1st|i)\b"),
      "criminal sexual conduct first degree",
      5),
    Substitution(
      "criminal sexual conduct second degree",
      Composite(@"\bcsc" + Sep + @"(?:2|2nd|ii)\b"),
      "criminal sexual conduct second degree",
      5),
    Substitution(
      "criminal sexual conduct third degree",
      Composite(@"\bcsc" + Sep + @"(?:3|3rd|ii)\b"),
      "criminal sexual conduct third degree",
      5),
    Substitution(
      "criminal sexual conduct fourth degree",
      Composite(@"\bcsc" + Sep + @"(?:4|4th|iv)\b"),
      "criminal sexual conduct fourth degree",
      5),
    Substitution("sodomy", Words(true, [Lit("sod")], Unguarded, true), "sodomy"),
    Substitution(
      "engage sexual act",
      Composite(@"\benga" + Sep + @"sex" + Sep + @"act\b"),
      "engage sexual act"),
    Substitution("engage sexual act 2", Composite(@"\beng" + Sep + @"sex\b"), "engage sexual act"),
    Substitution("no force", Composite(@"\bno" + Sep + @"frc\b"), "no force", 5),
    Substitution(
      "force or coercion",
      Composite(@"\bfrc" + Sep + @"or" + Sep + @"coercn\b"),
      "force or coercion",
      5),
    Substitution("coercion", Words(true, [Lit("coer"), Lit("coercn")], Unguarded, true), "coercion"),
    Substitution(
      "position of authority",
      Composite(@"\bpos" + Sep + @"auth\b"),
      "position of authority",
      4),
    Substitution(
      "position of authority 2",
      Composite(@"\bpos" + Sep + @"of" + Sep + @"auth\b"),
      "position of authority",
      4),
    Substitution(
      "person in authority",
      Composite(@"\bper" + Sep + @"aut\b"),
      "person in authority",
      4),
    Substitution(
      "other family",
      Composite(@"\b(?:othr|oth|other)" + Sep + @"(?:family|fam)\b"),
      "other family",
      4),
    Substitution(
      "immoral",
      Words(true, [Lit("immoral"), Lit("imoral"), Lit("imm"), Lit("imor")], Unguarded, true),
      "immoral",
      4),
    Substitution("purpose", Words(true, [Lit("purp")], Unguarded, true), "purpose", 4),
    Substitution(
      "communication with minor for immoral purpose",
      Composite(@"\b(?:communication|comm|com)" + Sep + @"(?:with|w)" + Sep + @"(?:minor|min)" + Sep + @"(?:immoral|imoral|imm|imor)\b"),
      "communication with minor for immoral purpose",
      4),
    Substitution(
      "communication with minor for immoral purpose 2",
      Composite(@"\bcomm" + Sep + @"minor" + Sep + @"imm\b"),
      "communication with minor for immoral purpose",
      4),
    Substitution(
      "communication with minor",
      Composite(@"\bcom" + Sep + @"w" + Sep + @"minor\b"),
      "communication with minor",
      4)
  ]

  /** Rules on embezzlement (cleaning_utils.py lines 1501-1670). */
  const EmbezzlementTerms: seq<Substitution> := [
    Substitution(
      "Embezzlement",
      Words(
        true, [
          Lit("embezzle"),
          Lit("embezz"),
          Lit("embez"),
          Lit("embzzlmnt"),
          Lit("embz")
        ], Unguarded, true),
      "embezzlement"),
    Substitution("real estate", Composite(@"\breal" + Sep + @"estat\b"), "real estate"),
    Substitution("chattel", Words(true, [Lit("chatl")], Unguarded, true), "chattel"),
    Substitution("received", Words(true, [Lit("receiv"), Lit("rcvd")], Unguarded, true), "received"),
    Substitution("mortgagor", Words(true, [Lit("mortgr")], Unguarded, true), "mortgagor"),
    Substitution("agreement", Words(true, [Lit("agrmnt")], Unguarded, true), "agreement"),
    Substitution(
      "public",
      Words(true, [Lit("pub"), Lit("publ"), Lit("pblc")], Unguarded, true),
      "public"),
    Substitution("behavior", Words(true, [Lit("behav")], Unguarded, true), "behavior"),
    Substitution("private", Words(true, [Lit("priv")], Unguarded, true), "private"),
    Substitution("corporation", Words(true, [Lit("corp")], Unguarded, true), "corporation"),
    Substitution("purchase", Words(true, [Lit("purc")], Unguarded, true), "purchase"),
    Substitution(
      "political",
      Words(true, [Lit("pol"), Lit("polit"), Lit("politcl")], Unguarded, true),
      "political"),
    Substitution("police dog", Composite(@"\bpol" + Sep + @"dog\b"), "police dog", 5),
    Substitution("payroll", Words(true, [Lit("payrll")], Unguarded, true), "payroll"),
    Substitution("law enforcement", Composite(@"\blaw" + Sep + @"enf\b"), "law enforcement"),
    Substitution("incident", Words(true, [Lit("incdnt")], Unguarded, true), "incident"),
    Substitution("report", Words(true, [Lit("rept")], Unguarded, true), "report"),
    Substitution("transfer", Words(true, [Lit("trnsf")], Unguarded, true), "transfer"),
    Substitution("capital assets", Composite(@"\bcptl" + Sep + @"asts\b"), "capital assets"),
    Substitution(
      "clerk of court",
      Composite(@"\bclrk" + Sep + @"of" + Sep + @"crt\b"),
      "clerk of court"),
    Substitution("insufficient", Words(true, [Lit("insuf")], Unguarded, true), "insufficient"),
    Substitution(
      "corporate officer",
      Composite(@"\bcorp" + Sep + @"officer\b"),
      "corporate officer",
      5),
    Substitution(
      "institution",
      Words(true, [Lit("instit"), Lit("inst")], Unguarded, true),
      "institution"),
    Substitution("organization", Words(true, [Lit("org")], Unguarded, true), "organization"),
    Substitution("animals", Words(true, [Lit("anmls")], Unguarded, true), "animals"),
    Substitution("animal", Words(true, [Lit("anml")], Unguarded, true), "animal"),
    Substitution("software", Words(true, [Lit("softwr")], Unguarded, true), "software"),
    Substitution(
      "transit or service bus",
      Composite(@"\btrans" + Sep + @"serv" + Sep + @"bus\b"),
      "transit or service bus"),
    Substitution("insurance agent", Composite(@"\binsur" + Sep + @"agent\b"), "insurance agent"),
    Substitution(
      "official",
      Words(true, [Lit("offic"), Lit("offl"), Lit("offcl"), Lit("officl")], Unguarded, true),
      "official"),
    Substitution(
      "misappropriation",
      Words(true, [Lit("misappro"), Lit("misapp")], Unguarded, true),
      "misappropriation"),
    Substitution(
      "misapplication",
      Words(true, [Lit("misapl")], Unguarded, true),
      "misappropriation"),
    Substitution("fiduciary", Words(true, [Lit("fiduc")], Unguarded, true), "fiduciary"),
    Substitution("financial", Words(true, [Lit("finan")], Unguarded, true), "financial"),
    Substitution("funds", Words(true, [Lit("fnds")], Unguarded, true), "funds")
  ]

  /** Rules on unspecified felonies (cleaning_utils.py lines 1672-1768). */
  const FelonyTerms: seq<Substitution> := [
    Substitution(
      "rendering assistance",
      Composite(@"\brend" + Sep + @"assist\b"),
      "rendering assistance",
      5),
    Substitution(
      "criminal assistance",
      Composite(@"\b(?:crim|criminal)" + Sep + @"assist\b"),
      "criminal assistance",
      4),
    Substitution(
      "consummate",
      Words(true, [Lit("consu"), Lit("consummat")], Unguarded, true),
      "consummate",
      4),
    Substitution("deliver", Words(true, [Lit("delive")], Unguarded, true), "deliver", 4),
    Substitution("to commit", Composite(@"\bto" + Sep + @"comm\b"), "to commit", 4),
    Substitution("violation of", Composite(@"\b(?:viol?|vio)" + Sep + @"of\b"), "violation of", 4),
    Substitution(
      "violation of civil",
      Composite(@"\bvol?" + Sep + @"civil\b"),
      "violation of civil",
      4),
    Substitution("rendering", Words(true, [Lit("rend")], Unguarded, true), "rendering"),
    Substitution(
      "assistance first degree",
      Composite(@"\bassistance" + Sep + @"1\b"),
      "assistance first degree",
      30),
    Substitution(
      "assistance second degree",
      Composite(@"\bassistance" + Sep + @"2\b"),
      "assistance second degree",
      30),
    Substitution(
      "assistance third degree",
      Composite(@"\bassistance" + Sep + @"3\b"),
      "assistance third degree",
      30),
    Substitution("class", Words(true, [Lit("clas")], Unguarded, true), "class"),
    Substitution(
      "accessory",
      Words(true, [Lit("accessry"), Lit("accsry")], Unguarded, true),
      "accessory"),
    Substitution("dependency", Words(true, [Lit("depndncy")], Unguarded, true), "dependency"),
    Substitution("unspecified", Words(true, [Lit("unspfd")], Unguarded, true), "unspecified"),
    Substitution(
      "responsibility",
      Words(true, [Lit("respon"), Lit("respo")], Unguarded, true),
      "responsibility"),
    Substitution("classification", Words(true, [Lit("classif")], Unguarded, true), "classification"),
    Substitution("vice president", Words(true, [Lit("vp")], Unguarded, true), "vice president", 30)
  ]

  /** Rules on bribery (cleaning_utils.py lines 1770-1884). */
  const BriberyTerms: seq<Substitution> := [
    Substitution("personal", Words(true, [Lit("persona")], Unguarded, true), "personal"),
    Substitution("assistance", Words(true, [Lit("asst")], Unguarded, true), "assistance"),
    Substitution("service", Words(true, [Lit("serv")], Unguarded, true), "service"),
    Substitution(
      "facilitation",
      Words(true, [Lit("facil"), Lit("fac")], Unguarded, true),
      "facilitation"),
    Substitution("smuggling", Words(true, [Lit("smug")], Unguarded, true), "smuggling"),
    Substitution("health", Words(true, [Lit("hlth")], Unguarded, true), "health"),
    Substitution(
      "official position",
      Composite(@"\boff" + Sep + @"position\b"),
      "official position",
      5),
    Substitution("participants", Words(true, [Lit("participnts")], Unguarded, true), "participants"),
    Substitution("contestant", Words(true, [Lit("cntst")], Unguarded, true), "contestant"),
    Substitution("accept", Words(true, [Lit("accpt")], Unguarded, true), "accept"),
    Substitution(
      "campaign contribution",
      Composite(@"\bcamp" + Sep + @"cont\b"),
      "campaign contribution"),
    Substitution(
      "influence",
      Words(true, [Lit("inflnce"), Lit("influenc")], Unguarded, true),
      "influence"),
    Substitution("compensation", Words(true, [Lit("compens")], Unguarded, true), "compensation"),
    Substitution("treatment", Words(true, [Lit("treatm")], Unguarded, true), "treatment"),
    Substitution(
      "commercial bribe",
      Composite(@"\b(?:comm|comm\'l)" + Sep + @"bribe\b"),
      "commercial bribe"),
    Substitution("false testimony", Composite(@"\bfalse" + Sep + @"test\b"), "false testimony"),
    Substitution("miscellaneous", Words(true, [Lit("misc")], Unguarded, true), "miscellaneous"),
    Substitution("impersonating", Words(true, [Lit("impers")], Unguarded, true), "impersonating"),
    Substitution("receiving", Words(true, [Lit("recv")], Unguarded, true), "receiving"),
    Substitution(
      "interfere with official process",
      Composite(@"\binterfere" + Sep + @"w" + Sep + @"offc" + Sep + @"proc\b"),
      "interfere with official process",
      5),
    Substitution("public record", Composite(@"\b(?:public|pub)" + Sep + @"rec\b"), "public record"),
    Substitution(
      "public servant",
      Composite(@"\b(?:public|pub)" + Sep + @"(?:servant|srv|srvnt)\b"),
      "public servant"),
    Substitution(
      "witness juror",
      Composite(@"\b(?:witness|wit)" + Sep + @"(?:juror|jur)\b"),
      "witness juror",
      5),
    Substitution(
      "umpire referee",
      Composite(@"\b(?:umpire|ump)" + Sep + @"(?:referee|ref)\b"),
      "umpire referee")
  ]

  /** Rules on family related offenses (cleaning_utils.py lines 1886-1951). */
  const FamilyOffenseTerms: seq<Substitution> := [
    Substitution(
      "custody interference",
      Composite(@"\bcust" + Sep + @"inter\b"),
      "custody interference"),
    Substitution(
      "custody interference second degree",
      Composite(@"\bcust" + Sep + @"inter" + Sep + @"2\b"),
      "custody interference second degree",
      5),
    Substitution("abandonment", Words(true, [Lit("abandonmnt")], Unguarded, true), "abandonment"),
    Substitution("unattended", Words(true, [Lit("unatt")], Unguarded, true), "unattended"),
    Substitution(
      "endanger",
      Words(true, [Lit("endngr"), Lit("endgr"), Lit("endang")], Unguarded, true),
      "endanger"),
    Substitution("welfare", Words(true, [Lit("wlfre"), Lit("wlfr")], Unguarded, true), "welfare"),
    Substitution(
      "endanger welfare",
      Composite(@"\b(?:endngr|endgr|endang)" + Sep + @"(?:wlfre|wlfr|wel)\b"),
      "endanger welfare"),
    Substitution("neglect", Words(true, [Lit("neglct")], Unguarded, true), "neglect"),
    Substitution("contribute", Words(true, [Lit("contrib")], Unguarded, true), "contribute"),
    Substitution(
      "delinquincy",
      Words(true, [Lit("dlnqncy"), Lit("delinq")], Unguarded, true),
      "delinquincy"),
    Substitution("service", Words(true, [Lit("srvc")], Unguarded, true), "service"),
    Substitution(
      "misrepresentation",
      Words(true, [Lit("misrep")], Unguarded, true),
      "misrepresentation"),
    Substitution("disabled", Words(true, [Lit("disabld")], Unguarded, true), "disabled")
  ]

  /** Rules on records and what follows them (cleaning_utils.py lines 1953-2017). */
  const RecordTerms: seq<Substitution> := [
    Substitution(
      "system of records exempt",
      Composite(@"\bsor" + Sep + @"exempt\b"),
      "system of records exempt"),
    Substitution("type", Words(true, [Lit("typ")], Unguarded, true), "type"),
    Substitution(
      "misconduct",
      Words(true, [Lit("miscond"), Lit("miscon")], Unguarded, true),
      "misconduct"),
    Substitution("mischief", Words(true, [Lit("misch")], Unguarded, true), "mischief"),
    Substitution(
      "probation revocation",
      Composite(@"\bprob" + Sep + @"(?:rev|revo)\b"),
      "probation revocation"),
    Substitution("management", Words(true, [Lit("mgmt")], Unguarded, true), "management"),
    Substitution("subsistence", Words(true, [Lit("subsist")], Unguarded, true), "subsistence"),
    Substitution("penalty group", Words(true, [Lit("pg")], Unguarded, true), "penalty group"),
    Substitution(
      "community custody",
      Words(true, [Lit("comm custody")], Unguarded, true),
      "community custody"),
    Substitution("contempt", Words(true, [Lit("cntmpt")], Unguarded, true), "contempt"),
    Substitution(
      "counterfeit",
      Words(
        true, [
          Lit("cntft"),
          Lit("cntrft"),
          Lit("cntrfeit"),
          Lit("cnterft"),
          Lit("contrft"),
          Lit("contrfit")
        ], Unguarded, true),
      "counterfeit"),
    Substitution("counts", Words(true, [Lit("cts"), Lit("cnts")], Unguarded, true), "counts"),
    Substitution(
      "victim",
      Words(true, [Lit("vict"), Lit("vctm"), Lit("vic")], Unguarded, true),
      "victim")
  ]

  /** Rules on numbers (cleaning_utils.py lines 2019-2053). */
  const NumberTerms: seq<Substitution> := [
    Substitution("first", Words(true, [Lit("1st")], Unguarded, true), "first", 20),
    Substitution(
      "first degree",
      Composite(@"\b(?:first|1|1st)" + Sep + @"(?:dgr|dg|de|d)\b"),
      "first degree"),
    Substitution("first degree 2", Words(true, [Lit("1dg")], Unguarded, true), "first degree"),
    Substitution(
      "circumstances in the first degree",
      Composite(@"\bcircumstances" + Sep + @"1\b"),
      "circumstances in the first degree"),
    Substitution("second", Words(true, [Lit("2nd")], Unguarded, true), "second", 20),
    Substitution(
      "second degree",
      Composite(@"\b(?:second|2|2nd)" + Sep + @"(?:dgr|dg|de|d)\b"),
      "second degree"),
    Substitution(
      "circumstances in the second degree",
      Composite(@"\bcircumstances" + Sep + @"2\b"),
      "circumstances in the second degree"),
    Substitution("third", Words(true, [Lit("3rd")], Unguarded, true), "third", 20),
    Substitution(
      "third degree",
      Composite(@"\b(?:third|3|3rd)" + Sep + @"(?:dgr|dg|de|d)\b"),
      "third degree"),
    Substitution(
      "circumstances in the third degree",
      Composite(@"\bcircumstances" + Sep + @"3\b"),
      "circumstances in the third degree"),
    Substitution("fourth", Words(true, [Lit("4th")], Unguarded, true), "fourth", 20),
    Substitution("fifth", Words(true, [Lit("5th")], Unguarded, true), "fifth", 20),
    Substitution("sixth", Words(true, [Lit("6th")], Unguarded, true), "sixth", 20),
    Substitution("seventh", Words(true, [Lit("7th")], Unguarded, true), "seventh", 20),
    Substitution("eighth", Words(true, [Lit("8th")], Unguarded, true), "eighth", 20),
    Substitution("ninth", Words(true, [Lit("9th")], Unguarded, true), "ninth", 20),
    Substitution("tenth", Words(true, [Lit("10th")], Unguarded, true), "tenth", 20)
  ]

  /** Rules on drug schedules (cleaning_utils.py lines 2056-2088). */
  const ScheduleTerms: seq<Substitution> := [
    Substitution(
      "Schedule",
      Words(
        true, [
          Lit("sched"),
          Lit("sche"),
          Lit("schd"),
          Lit("sch"),
          Lit("shed"),
          Lit("she"),
          Lit("shd"),
          Lit("sh"),
          Lit("sch"),
          Lit("sched"),
          Lit("schd")
        ], Unguarded, true),
      "schedule",
      9),
    Substitution("schedule one", Composite(@"\bschedule" + Sep + @"(?:i|1|l)\b"), "schedule one"),
    Substitution("schedule two", Composite(@"\bschedule" + Sep + @"(?:ii|2|ll)\b"), "schedule two"),
    Substitution(
      "schedule three",
      Composite(@"\bschedule" + Sep + @"(?:iii|3|lll)\b"),
      "schedule three"),
    Substitution(
      "schedule four",
      Composite(@"\bschedule" + Sep + @"(?:iv|4|lv)\b"),
      "schedule four"),
    Substitution("schedule five", Composite(@"\bschedule" + Sep + @"(?:v|5)\b"), "schedule five"),
    Substitution("schedule six", Composite(@"\bschedule" + Sep + @"(?:vi|6|vl)\b"), "schedule six")
  ]

  /** Rules on driving (cleaning_utils.py lines 2090-2154). */
  const DrivingTerms: seq<Substitution> := [
    Substitution("driving", Words(true, [Lit("drvg")], Unguarded, true), "driving"),
    Substitution("driving 2", Composite(@"\bdriv" + Sep + @"g\b"), "driving"),
    Substitution("failure to yield", Words(true, [Lit("fty")], Unguarded, true), "failure to yield"),
    Substitution("permit", Words(true, [Lit("perm")], Unguarded, true), "permit"),
    Substitution(
      "registration",
      Words(true, [Lit("regis"), Lit("registra")], Unguarded, true),
      "registration"),
    Substitution(
      "driving under the influence",
      Words(true, [Lit("dui")], Unguarded, true),
      "driving under the influence"),
    Substitution(
      "driving while impaired",
      Words(true, [Lit("dwi")], Unguarded, true),
      "driving while impaired"),
    Substitution(
      "driving while license suspended",
      Words(true, [Lit("dwls")], Unguarded, true),
      "driving while license suspended"),
    Substitution(
      "driving while license revoked",
      Words(true, [Lit("dwlr")], Unguarded, true),
      "driving while license revoked"),
    Substitution("revoked", Words(true, [Lit("revkd")], Unguarded, true), "revoked"),
    Substitution(
      "reckless endangerment",
      Composite(@"\breckles" + Sep + @"endanger\b"),
      "reckless endangerment"),
    Substitution("highway", Composite(@"\bhi" + Sep + @"way\b"), "highway"),
    Substitution("reckless driving", Composite(@"\brek" + Sep + @"dr?\b"), "reckless driving")
  ]

  /** Rules on theft and what follows it (cleaning_utils.py lines 2156-2185). */
  const TheftTerms: seq<Substitution> := [
    Substitution("retail theft", Composite(@"\bretail" + Sep + @"thft\b"), "retail theft"),
    Substitution(
      "impregnate girl",
      Composite(@"\b(?:impregnate|impreg)" + Sep + @"(?:girl|grl)\b"),
      "impregnate girl"),
    Substitution(
      "worker compensation",
      Composite(@"\bwrkr" + Sep + @"cmp\b"),
      "worker compensation"),
    Substitution("disregard", Words(true, [Lit("disreg")], Unguarded, true), "disregard"),
    Substitution(
      "electrical appliance",
      Composite(@"\belct" + Sep + @"appl\b"),
      "electrical appliance"),
    Substitution(
      "serial number",
      Composite(@"\b(?:serial|ser)" + Sep + @"(?:number|nmbr|num|nu|no)\b"),
      "serial number")
  ]

  /** Rules on distribution, furnishing and trafficking (cleaning_utils.py lines 2189-2426). */
  const DistributionTerms: seq<Substitution> := [
    Substitution(
      "traffick",
      Words(true, [Lit("tfk"), Lit("traff"), Lit("traf")], Unguarded, true),
      "traffick"),
    Substitution(
      "distribution",
      Words(true, [Lit("distr"), Lit("distrib")], Unguarded, true),
      "distribution"),
    Substitution(
      "attempted distribution",
      Composite(@"\b(?:at|att|attempted)" + Sep + @"dist\b"),
      "attempted distribution",
      5),
    Substitution(
      "illegal distribution",
      Composite(@"\billgl" + Sep + @"dist\b"),
      "intent distribution",
      5),
    Substitution("buy distribute", Composite(@"\bbuy" + Sep + @"dist\b"), "buy distribute"),
    Substitution(
      "intent distribute",
      Composite(@"\b(?:intent|int)" + Sep + @"dist\b"),
      "intent distribute",
      5),
    Substitution(
      "intent to distribute",
      Composite(@"\b(?:intent|int)" + Sep + @"to" + Sep + @"dist\b"),
      "intent to distribute",
      5),
    Substitution(
      "distribution possession",
      Composite(@"\bdist" + Sep + @"(?:possession|possess|poss)\b"),
      "distribution possession",
      5),
    Substitution(
      "unauthorized distribution",
      Composite(@"\b(?:unauthorized|unauth|unau|unauthd)" + Sep + @"dist\b"),
      "unauthorized distribution",
      5),
    Substitution(
      "possession distribution",
      Composite(@"\b(?:possession|possess|poss)" + Sep + @"dist\b"),
      "possession distribution",
      5),
    Substitution(
      "unlaw distribution",
      Composite(@"\b(?:unlawful|unlaw)" + Sep + @"dist\b"),
      "unlawful distribution",
      5),
    Substitution(
      "distribution controlled",
      Composite(@"\bdist" + Sep + @"(?:controlled|cntrld|cntrl|contrlld)\b"),
      "distribution controlled",
      5),
    Substitution(
      "distribute schedule",
      Composite(@"\bdist" + Sep + @"(?:schedule|sch|sched)\b"),
      "distribute schedule",
      5),
    Substitution(
      "furnish",
      Words(true, [Lit("furnishing"), Lit("furn")], Unguarded, true),
      "furnish"),
    Substitution(
      "manufacturing",
      Words(
        true, [
          Lit("manuf"),
          Lit("manu"),
          Lit("mfg"),
          Lit("manf"),
          Lit("manfac")
        ], Unguarded, true),
      "manufacturing"),
    Substitution(
      "manufacturing distribution sell",
      Composite(@"\b(?:manuf|manu|man|mfg|manf|manfac)" + Sep + @"dist" + Sep + @"sell\b"),
      "manufacturing distribution sell",
      5),
    Substitution(
      "record sell rent distribute",
      Composite(@"\brecord" + Sep + @"sell" + Sep + @"rent" + Sep + @"dist\b"),
      "record sell rent distribute",
      5),
    Substitution("sell distribute", Composite(@"\bsell" + Sep + @"dist\b"), "sell distribute", 5),
    Substitution("sale distribute", Composite(@"\bsale" + Sep + @"dist\b"), "sale distribute", 5),
    Substitution(
      "offer agree to distribute",
      Composite(@"\boffer" + Sep + @"agree" + Sep + @"to" + Sep + @"dist\b"),
      "offer agree distribute",
      5),
    Substitution(
      "arrange to distribute",
      Composite(@"\barrange" + Sep + @"to" + Sep + @"dist\b"),
      "arrange to distribute",
      5),
    Substitution(
      "arrange to distribute 2",
      Composite(@"\barrange" + Sep + @"dist\b"),
      "arrange to distribute",
      5),
    Substitution(
      "controlled substance distribution",
      Composite(@"\bcontr" + Sep + @"sub" + Sep + @"dist\b"),
      "controlled substance distribution",
      5),
    Substitution(
      "manufacturing deliver distribution",
      Composite(@"\b(?:manuf|manu|man|mfg|manf)" + Sep + @"del" + Sep + @"dist\b"),
      "manufacturing deliver distribution",
      5),
    Substitution(
      "possession distribution manufacturing",
      Composite(@"\bposs" + Sep + @"dist" + Sep + @"manuf\b"),
      "possession distribution manufacturing",
      5),
    Substitution(
      "with intent to distribute",
      Words(true, [Lit("witd")], Unguarded, true),
      "with intent to distribute",
      5),
    Substitution(
      "possession with intent to distribute",
      Composite(@"\bposs" + Sep + @"(?:with|w)" + Sep + @"(?:intent|int|i)" + Sep + @"dist\b"),
      "possession with intent to distribute",
      5),
    Substitution(
      "manufacturing distribution possession",
      Composite(@"\b(?:manuf|manu|man|mfg|manf)" + Sep + @"dist" + Sep + @"(?:p|poss|pos)\b"),
      "manufacturing distribution possession",
      5),
    Substitution(
      "manufacturing distribution",
      Composite(@"\b(?:manuf|manu|man|mfg|manf)" + Sep + @"dist\b"),
      "manufacturing distribution",
      5),
    Substitution(
      "distribution obscene material",
      Composite(@"\bdist" + Sep + @"(?:obscene|obs|obsc)" + Sep + @"(?:material|mat|mtrl)\b"),
      "distribution obscene material",
      5),
    Substitution(
      "harmful material",
      Composite(@"\b(?:harmful|hrmf)" + Sep + @"(?:material|mat|mtrl)\b"),
      "harmful material",
      5),
    Substitution(
      "obscene material distribution",
      Composite(@"\b(?:obscene|obs|obsc)" + Sep + @"(?:material|mat|mtrl)" + Sep + @"dist\b"),
      "obscene material distribution",
      5),
    Substitution(
      "material",
      Words(true, [Lit("matrl"), Lit("mat"), Lit("mtrl")], Unguarded, true),
      "material",
      5),
    Substitution(
      "distribution child porn",
      Composite(@"\bdist" + Sep + @"child" + Sep + @"porn\b"),
      "distribution child porn",
      5),
    Substitution(
      "distribution controlled substances",
      Composite(@"\bdist" + Sep + @"cds\b"),
      "distribution controlled substances",
      5),
    Substitution(
      "controlled substances distribution ",
      Composite(@"\bcds" + Sep + @"dist\b"),
      "controlled substances distribution ",
      5),
    Substitution(
      "distribution narcotics",
      Composite(@"\bdist" + Sep + @"narc\b"),
      "distribution narcotics",
      5),
    Substitution(
      "deliver or distribution",
      Composite(@"\bdel" + Sep + @"or" + Sep + @"dist\b"),
      "deliver or distribution",
      5),
    Substitution(
      "criminal distribution",
      Composite(@"\bcriminal" + Sep + @"dist\b"),
      "criminal distribution",
      5),
    Substitution("purchase", Words(true, [Lit("pur")], Unguarded, true), "purchase")
  ]

  /** Rules on drugs (cleaning_utils.py lines 2428-2502). */
  const DrugTerms: seq<Substitution> := [
    Substitution(
      "marijuana",
      Words(
        true, [
          Lit("marij"),
          Lit("marihuana"),
          Lit("mari"),
          Lit("marijuan"),
          Lit("marijua"),
          Lit("mariju"),
          Lit("mj")
        ], Unguarded, true),
      "marijuana"),
    Substitution("hydrocodone", Words(true, [Lit("hydroc")], Unguarded, true), "hydrocodone"),
    Substitution(
      "cocaine",
      Words(true, [Lit("cocain"), Lit("coca"), Lit("cocai"), Lit("cocne")], Unguarded, true),
      "cocaine"),
    Substitution("crack or cocaine", Words(true, [Lit("coc")], Unguarded, true), "crack or cocaine"),
    Substitution("rohypnol", Words(true, [Lit("rohypnl")], Unguarded, true), "rohypnol"),
    Heroine,
    HeroineAgain,
    Substitution("ecstasy", Words(true, [Lit("mdma")], Unguarded, true), "ecstasy"),
    Substitution(
      "methamphetamine",
      Words(true, [Lit("meth"), Lit("metham"), Lit("methamphet"), Lit("methamph")], Unguarded, true),
      "methamphetamine"),
    Substitution(
      "paraphernalia",
      Words(true, [Lit("para"), Lit("paraph"), Lit("paraphenalia"), Lit("parap")], Unguarded, true),
      "paraphernalia"),
    Substitution(
      "grams",
      Words(true, [Lit("gr"), Lit("gms"), Lit("grms")], Unguarded, true),
      "grams"),
    Substitution("gram", Words(true, [Lit("gm")], Unguarded, true), "gram"),
    Substitution("kilograms", Words(true, [Lit("kg")], Unguarded, true), "kilograms"),
    Substitution("pounds", Words(true, [Lit("lb")], Unguarded, true), "pounds"),
    Substitution("ounces", Words(true, [Lit("oz")], Unguarded, true), "ounces")
  ]

  /** Rules on alcohol and liquor (cleaning_utils.py lines 2504-2596). */
  const AlcoholTerms: seq<Substitution> := [
    Substitution(
      "alcoholic beverage",
      Words(true, [Lit("alc") + [NonWordClass] + Lit("bev")], Unguarded, true),
      "alcoholic beverage",
      5),
    Substitution("beverage", Words(true, [Lit("bev")], Unguarded, true), "beverage"),
    Substitution(
      "blood alcohol concentration",
      Words(true, [Lit("bac")], Unguarded, true),
      "blood alcohol concentration"),
    Substitution(
      "alcohol",
      Words(
        true, [
          Lit("alc"),
          Lit("alch"),
          Lit("alchol"),
          Lit("alcohl"),
          Lit("alco"),
          Lit("alcoh"),
          Lit("alcoho")
        ], Unguarded, true),
      "alcohol"),
    Substitution("over legal", Composite(@"\b(?:over|ov)" + Sep + @"(?:legal|leg)\b"), "over legal"),
    Substitution("supply", Words(true, [Lit("supp")], Unguarded, true), "supply"),
    Substitution("liquor", Words(true, [Lit("liq")], Unguarded, true), "liquor"),
    Substitution("distill", Words(true, [Lit("dstl")], Unguarded, true), "distill"),
    Substitution(
      "minor in possession",
      Words(true, [Lit("mip")], Unguarded, true),
      "minor in possession"),
    Substitution("premises", Words(true, [Lit("prem")], Unguarded, true), "premises"),
    Substitution("consume", Words(true, [Lit("cnsum")], Unguarded, true), "consume"),
    Substitution("intoxication", Words(true, [Lit("intox")], Unguarded, true), "intoxication"),
    Substitution("available", Words(true, [Lit("avail")], Unguarded, true), "available"),
    Substitution("unlicensed", Words(true, [Lit("unlic")], Unguarded, true), "unlicensed"),
    Substitution("large amount", Composite(@"\blg" + Sep + @"amt\b"), "large amount"),
    Substitution("small amount", Composite(@"\bsm" + Sep + @"amt\b"), "small amount"),
    Substitution("required", Words(true, [Lit("req")], Unguarded, true), "required"),
    Substitution(
      "violate prohibition",
      Composite(@"\bvio" + Sep + @"prohibition\b"),
      "violate prohibition"),
    Substitution("enticement", Words(true, [Lit("entcmnt")], Unguarded, true), "enticement")
  ]

  /** Rules on substances (cleaning_utils.py lines 2598-2641). */
  const SubstanceTerms: seq<Substitution> := [
    Substitution(
      "Substance",
      Words(
        true, [
          Lit("sub"),
          Lit("subs"),
          Lit("substanc"),
          Lit("substan"),
          Lit("substnces"),
          Lit("subtance"),
          Lit("substa"),
          Lit("substnc"),
          Lit("sunstance"),
          Lit("subst")
        ], Unguarded, true),
      "substance",
      20),
    Substitution(
      "controlled",
      Words(true, [Lit("cntrld"), Lit("cntrl"), Lit("contrlld")], Unguarded, true),
      "controlled",
      20),
    Substitution(
      "controlled dangerous substances",
      Words(true, [Lit("cds")], Unguarded, true),
      "controlled dangerous substances"),
    Substitution(
      "solicitation of controlled substances",
      Composite(@"\bsol" + Sep + @"cds\b"),
      "solicitation of controlled substances",
      4),
    Substitution(
      "solicitation",
      Words(true, [Lit("solct"), Lit("sol"), Lit("solicit"), Lit("solic")], Unguarded, true),
      "solicitation"),
    Substitution(
      "solicitation of narcotics",
      Composite(@"\bsol" + Sep + @"narc\b"),
      "solicitation of narcotics",
      4),
    Substitution(
      "Controlled Substance",
      Composite(@"\bcont?r?" + Sep + @"?subs?t?(?:\b|stance\b)"),
      "controlled substance"),
    Substitution(
      "Controlled Substance 2",
      Words(true, [Lit("c") + [NonWordClass] + Lit("s"), Lit("cs")], Unguarded, true),
      "controlled substance"),
    Substitution(
      "unlawful possession of a controlled substance",
      Words(true, [Lit("upcs")], Unguarded, true),
      "unlawful possession of a controlled substance")
  ]

  const Substitutions: seq<Substitution> :=
    LessGreaterTerms + WithTerms + FirearmTerms + DomesticViolenceTerms + ConvictionTerms +
    GeneralTerms + VehicleTerms + AssaultTerms + AgeTerms + FemaleAgeTerms + MaleAgeTerms +
    RobberyTerms + WeaponTerms + HarmTerms + PersonTerms + LewdTerms + SexualOffenseTerms +
    EmbezzlementTerms + FelonyTerms + BriberyTerms + FamilyOffenseTerms + RecordTerms +
    NumberTerms + ScheduleTerms + DrivingTerms + TheftTerms + DistributionTerms + DrugTerms +
    AlcoholTerms + SubstanceTerms

  /** The catalogue `cleaner` reads. */
  const SourceCatalogue := Catalogue(Substitutions, Removals)
}
