/**
 The fixed vocabulary of clinical parameter names a report may contain (`RELEVANT_OBJECTS`), and
 the lookup that turns a lower-cased match back into the vocabulary's own spelling.
 */
module Registry {
  import opened Text

  /** The 69 parameter names, in the order and spelling of the source, written as the
      consecutive runs of its list that concern one organ system each. */
  const RelevantObjects: seq<string> :=
    Cardiovascular + Digestive + LiverAndBile + Pancreas
    + Kidney + Lungs + Brain + Minerals

  /** Parameters of the heart, blood and vessels. */
  const Cardiovascular: seq<string> := [
    "Viscosidad de la Sangre", "Cristal de Colesterol", "Grasa en Sangre",
    "Resistencia Vascular", "Elasticidad Vascular", "Demanda de Sangre Miocardial",
    "Volumen de Perfusión Sanguínea Miocardial", "Consumo de Oxígeno Miocardial",
    "Volumen de Latido", "Impedancia Ventricular Izquierda de Expulsión",
    "Fuerza de Bombeo Efectiva Ventricular Izquierda", "Elasticidad de Arteria Coronaria",
    "Presión de Perfusión Coronaria", "Elasticidad de Vaso Sanguíneo Cerebral",
    "Estado de Suministro Sanguíneo de Tejido Cerebral"
  ]

  /** Parameters of the stomach and intestines. */
  const Digestive: seq<string> := [
    "Coeficiente de Secreción de Pepsina", "Coeficiente de Función de Peristalsis Gástrica",
    "Coeficiente de Función de Absorción Gástrica",
    "Coeficiente de Función de Peristalsis del Intestino Delgado",
    "Coeficiente de Función de Absorción del Intestino Delgado",
    "Coeficiente de la Función de Peristalsis del Intestino Grueso (colon)",
    "Coeficiente de absorción colónica", "Coeficiente intestinal bacteriano",
    "Coeficiente de presión intraluminal"
  ]

  /** Parameters of the liver and bile. */
  const LiverAndBile: seq<string> := [
    "Metabolismo de las proteínas", "Función de producción de energía",
    "Función de Desintoxicación", "Función de Secreción de Bilis",
    "Contenido de Grasa en el Hígado", "Seroglobulina (A/G)", "Bilirrubina Total (TBIL)",
    "Fosfatasa Alcalina (ALP)", "Ácidos Biliares Totales Séricos (TBA)", "Bilirrubina (DBIL)"
  ]

  /** Parameters of the pancreas. */
  const Pancreas: seq<string> := [
    "Insulina", "Polipéptido Pancreático (PP)", "Glucagón"
  ]

  /** Parameters of the kidney. */
  const Kidney: seq<string> := [
    "Índice de Urobilinógeno", "Índice de Ácido Úrico",
    "Índice de Nitrógeno Ureico en la Sangre (BUN)", "Índice de Proteinuria"
  ]

  /** Parameters of the lungs. */
  const Lungs: seq<string> := [
    "Capacidad Vital (VC)", "Capacidad Pulmonar Total (TLC)",
    "Resistencia de las Vías Aéreas (RAM)", "Contenido de Oxígeno Arterial (PaCO2)"
  ]

  /** Parameters of the brain and nerves. */
  const Brain: seq<string> := [
    "Estado del Suministro Sanguíneo al Tejido Cerebral", "Arterioesclerosis Cerebral",
    "Estado Funcional de Nervio Craneal", "Índice de Emoción", "Índice de Memoria (ZS)"
  ]

  /** Parameters of the trace elements. */
  const Minerals: seq<string> := [
    "Calcio", "Hierro", "Zinc", "Selenio", "Fósforo", "Potasio", "Magnesio", "Cobre", "Cobalto",
    "Manganeso", "Yodo", "Níquel", "Flúor", "Molibdeno", "Vanadio", "Estaño", "Silicio",
    "Estroncio", "Boro"
  ]

  /** The vocabulary holds the source's 69 names, from "Viscosidad de la Sangre" to "Boro". */
  lemma VocabularyShape(registry: seq<string>)
    requires registry == RelevantObjects
    ensures |registry| == 69
    ensures registry[0] == "Viscosidad de la Sangre" && registry[1] == "Cristal de Colesterol"
    ensures registry[68] == "Boro"
  {
  }

  /** `[obj.lower() for obj in registry]`. */
  function Lowered(registry: seq<string>): seq<string> {
    seq(|registry|, i requires 0 <= i < |registry| => ToLower(registry[i]))
  }

  /** The lowered list has one lower-case string per entry: a string is in it exactly when it
      is the lower-case form of an entry, and lower-casing it again changes nothing. */
  lemma LoweredMembers(registry: seq<string>, m: string)
    ensures |Lowered(registry)| == |registry|
    ensures m in Lowered(registry) <==> exists k :: 0 <= k < |registry| && ToLower(registry[k]) == m
    ensures m in Lowered(registry) ==> ToLower(m) == m
  {
    if m in Lowered(registry) {
      var k :| 0 <= k < |registry| && Lowered(registry)[k] == m;
      ToLowerIdempotent(registry[k]);
    }
    if exists k :: 0 <= k < |registry| && ToLower(registry[k]) == m {
      var k :| 0 <= k < |registry| && ToLower(registry[k]) == m;
      assert Lowered(registry)[k] == m;
    }
  }

  /** Python's `xs.index(x)`: the position of the first occurrence of `x`. */
  function IndexOf(xs: seq<string>, x: string): (i: nat)
    requires x in xs
    ensures i < |xs| && xs[i] == x
    ensures forall j :: 0 <= j < i ==> xs[j] != x
  {
    if xs[0] == x then 0 else 1 + IndexOf(xs[1..], x)
  }

  /** The vocabulary entry whose lower-case form is the match `m`, in the vocabulary's own
      spelling: the first such entry, as `list.index` finds it. */
  function Canonical(registry: seq<string>, m: string): (c: string)
    requires m in Lowered(registry)
    ensures c in registry && ToLower(c) == m
  {
    registry[IndexOf(Lowered(registry), m)]
  }

  /** The spelling chosen is that of the first entry whose lower-case form is `m`. */
  lemma CanonicalIsFirst(registry: seq<string>, m: string, k: nat)
    requires k < |registry| && ToLower(registry[k]) == m
    requires forall j :: 0 <= j < k ==> ToLower(registry[j]) != m
    ensures m in Lowered(registry) && Canonical(registry, m) == registry[k]
  {
    var l := Lowered(registry);
    assert l[k] == m;
    var i := IndexOf(l, m);
    assert i == k;
  }

  /** No two entries of the vocabulary differ only in case. */
  predicate LowerDistinct(registry: seq<string>) {
    forall i, j :: 0 <= i < j < |registry| ==> ToLower(registry[i]) != ToLower(registry[j])
  }

  /** When no two entries differ only in case, an entry's lower-case form leads back to
      exactly that entry. */
  lemma CanonicalOfEntry(registry: seq<string>, k: nat)
    requires k < |registry| && LowerDistinct(registry)
    ensures ToLower(registry[k]) in Lowered(registry)
    ensures Canonical(registry, ToLower(registry[k])) == registry[k]
  {
    CanonicalIsFirst(registry, ToLower(registry[k]), k);
  }
}
