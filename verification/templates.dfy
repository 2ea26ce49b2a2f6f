/** The industry templates the scaffold matcher chooses between, reduced to their keyword lists. */
module Templates {

  /** The keys of the template table. */
  datatype TemplateType = Agtech | Fintech | Saas

  /** A template: its key and the keywords that suggest it. */
  datatype Template = Template(key: TemplateType, keywords: seq<string>)

  const AgtechKeywords: seq<string> :=
    ["farm", "agriculture", "crop", "worker", "field", "harvest", "gps", "tracking"]

  const FintechKeywords: seq<string> :=
    ["payment", "transaction", "banking", "money", "financial", "fintech"]

  const SaasKeywords: seq<string> :=
    ["saas", "platform", "subscription", "cloud", "software"]

  /** The template table, in declaration order: agtech, fintech, saas. */
  const AllTemplates: seq<Template> :=
    [Template(Agtech, AgtechKeywords), Template(Fintech, FintechKeywords), Template(Saas, SaasKeywords)]
}
