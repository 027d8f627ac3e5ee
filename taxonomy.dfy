/**
 * The fixed vocabularies of the analyser: the document categories, the
 * keyword table of the specialty inference (in its dictionary order, which
 * decides the result) and the list of medical specialties shared with the
 * backend.
 */
module Taxonomy {
  /** `CATEGORY_CHOICES`. */
  const CATEGORY_CHOICES: seq<string> := [
    "cardiologia",
    "allergologia",
    "ortopedia",
    "gastroenterologia",
    "oncologia",
    "pneumologia",
    "nefrologia",
    "neurologia",
    "urologia",
    "ginecologia",
    "ematologia",
    "endocrinologia",
    "infettivologia",
    "dermatologia",
    "medicina_generale",
    "altro"
  ]

  /** `SPECIALTY_KEYWORDS`: each specialty with its keywords, in dictionary order. */
  const SPECIALTY_KEYWORDS: seq<(string, seq<string>)> := [
    ("ematologia", ["ematolog", "emocromo", "globuli rossi", "eritroblast", "piastrin", "mchc", "rdw", "ferritin", "hgb", "hct"]),
    ("cardiologia", ["cardiolog", "elettrocardiogramma", "ecg", "holter", "troponin", "bnp", "ipertensione", "dispnea", "ramipril", "ritmo sinusale", "pressione arteriosa", "soffio", "fc ", "mmhg", "mitral"]),
    ("gastroenterologia", ["transaminas", "alt (gpt)", "ast (got)", "gamma gt", "bilirubina", "fegato", "gastro"]),
    ("endocrinologia", ["tiroide", "tsh", "ft3", "ft4", "endocrinolog", "insulina", "glicemia"]),
    ("nefrologia", ["creatinina", "clearance", "proteinuria", "nefrolog", "azotemia"]),
    ("oncologia", ["oncolog", "chemioterapia", "marker tumorale", "metastasi", "neoplasia"]),
    ("pneumologia", ["spirometria", "pneumolog", "saturazione", "polmon", "torac"]),
    ("dermatologia", ["dermatolog", "cute", "lesione cutane", "dermatite", "epiderm"]),
    ("allergologia", ["ige", "prick test", "allerg", "reattivita", "sensibilizzazione", "kua", "ku/l", "kuaa/l", "kuaa", "anisakis", "arachide", "tropomiosina", "albumina", "pru", "f75", "f95", "f1", "f2", "p4"]),
    ("ginecologia", ["ginecolog", "pap test", "ecografia transvaginale", "utero", "ovaio"]),
    ("urologia", ["psa", "prostata", "vescica", "urolog", "renale"]),
    ("ortopedia", ["ortoped", "frattura", "articolazione", "protesi", "osteoporosi", "ginocchio", "menisc", "legamento crociato", "legamento collaterale", "rotula", "tibia", "femore", "cartilagin", "condilo", "gonartrosi", "caviglia", "rm ginocchio", "rx ginocchio", "risonanza ginocchio", "jsw", "mjsw", "cmf", "imft"]),
    ("neurologia", ["neurolog", "elettromiografia", "rm encefalo", "epilessia", "sclerosi"]),
    ("radiologia", ["radiolog", "tomografia", "risonanza", "radiografia", "ecografia"]),
    ("medicina generale", ["medico curante", "medicina generale", "mmg", "medicina di base"])
  ]

  /** `MEDICAL_SPECIALTIES` of the backend's taxonomy. */
  const MEDICAL_SPECIALTIES: seq<string> := [
    "allergologia",
    "anestesia e rianimazione",
    "angiologia",
    "cardiologia",
    "chirurgia generale",
    "chirurgia vascolare",
    "dermatologia",
    "endocrinologia",
    "ematologia",
    "gastroenterologia",
    "geriatria",
    "ginecologia",
    "infettivologia",
    "medicina generale",
    "medicina interna",
    "nefrologia",
    "neurologia",
    "nutrizione clinica",
    "oftalmologia",
    "oncologia",
    "ortopedia",
    "otorinolaringoiatria",
    "pediatria",
    "pneumologia",
    "psichiatria",
    "radiologia",
    "reumatologia",
    "urologia",
    "altro"
  ]
}
