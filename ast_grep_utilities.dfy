/** The language lookup of src/core/astGrep/astGrepUtilities.ts. */
module AstGrepUtilities {
  import opened Wrappers

  /** The ast-grep languages the extension knows by name. */
  datatype Lang = JavaScript | Java | Python

  /** The fixed name-to-language table; its three keys are its whole domain. */
  const LangMap: map<string, Lang> := map["JavaScript" := JavaScript, "Java" := Java, "Python" := Python]

  /** The key under which `lang` is listed in `LangMap`. */
  function LangName(lang: Lang): string
  {
    match lang
    case JavaScript => "JavaScript"
    case Java => "Java"
    case Python => "Python"
  }

  /** Exact, case-sensitive lookup; `None` stands for `undefined`. */
  function GetLangFromString(lang: string): (r: Option<Lang>)
    ensures r.Some? <==> lang == "JavaScript" || lang == "Java" || lang == "Python"
    ensures lang == "JavaScript" ==> r == Some(JavaScript)
    ensures lang == "Java" ==> r == Some(Java)
    ensures lang == "Python" ==> r == Some(Python)
  {
    if lang in LangMap then Some(LangMap[lang]) else None
  }

  /** The lookup and the table's key names are inverse to each other: a name is
      found exactly when it is the key of the language it yields. */
  lemma LookupInvertsName(name: string, lang: Lang)
    ensures GetLangFromString(name) == Some(lang) <==> name == LangName(lang)
  {
    if name == LangName(lang) {
      assert name in LangMap;
    }
  }

  /** Names outside the table, the empty string among them, give `undefined`. */
  lemma UnknownNamesAreUndefined()
    ensures GetLangFromString("") == None
    ensures GetLangFromString("CSharp") == None
    ensures GetLangFromString("Ruby") == None
    ensures GetLangFromString("javascript") == None
  {
  }
}
