/**
 * Option derivation of the image-edit route (app/api/image2/route.ts): the
 * packaging type, the prompt chosen for it, the ice-pack flag and the byte
 * budget handed to the post-processing step. The HTTP handling and the
 * provider calls are not modelled.
 */
module Image2Route {
  import opened Wrappers
  import Codec
  import Postprocess

  /** The four packaging types (`PackagingType`). */
  datatype Packaging = Vacuum | Gembolan | Mika | Mesh {
    /** The string literal of the type. */
    function Name(): string {
      match this
      case Vacuum => "vacuum"
      case Gembolan => "gembolan"
      case Mika => "mika"
      case Mesh => "mesh"
    }
  }

  /** The prompt catalogue entries the route chooses from, as opaque tags. */
  datatype Prompt = FreshVacuum | FreshVacuumWithIcepack | FreshGembolan | FreshMika | FreshMesh {
    /** The packaging type the entry is written for. */
    function Target(): Packaging {
      match this
      case FreshVacuum => Vacuum
      case FreshVacuumWithIcepack => Vacuum
      case FreshGembolan => Gembolan
      case FreshMika => Mika
      case FreshMesh => Mesh
    }

    /** Whether the entry asks for an ice pack in the picture. */
    predicate ShowsIcePack() {
      this == FreshVacuumWithIcepack
    }
  }

  /** What `form.get(key)` yields: nothing, a text field, or an uploaded file. */
  datatype FormEntry = Absent | Text(text: string) | Upload

  /** `String(form.get(key))` */
  function FormString(e: FormEntry): (s: string)
    ensures e.Text? ==> s == e.text
    ensures !e.Text? ==> s != "" && s !in {"gembolan", "mika", "mesh", "true"}
  {
    match e
    case Absent => "null"
    case Text(s) => s
    case Upload => "[object File]"
  }

  /** `form.get(key) === "true"` */
  predicate IsTrue(e: FormEntry)
    ensures IsTrue(e) <==> e.Text? && FormString(e) == "true"
  {
    e == Text("true")
  }

  /** A JavaScript number as far as the route needs it; the infinities are not modelled. */
  datatype Num = NaN | Finite(value: real)

  /**
   * `Number(form.get("maxKb") || 0)`. A missing field and the empty string are
   * falsy and become 0, a file converts to NaN, and any other text is converted
   * by `parse`, which stands for JavaScript's string-to-number conversion.
   */
  function MaxKb(e: FormEntry, parse: string -> Num): (n: Num)
    ensures e == Absent || e == Text("") ==> n == Finite(0.0)
    ensures e == Upload ==> n == NaN
    ensures e.Text? && e.text != "" ==> n == parse(e.text)
  {
    match e
    case Absent => Finite(0.0)
    case Upload => NaN
    case Text(s) => if s == "" then Finite(0.0) else parse(s)
  }

  /**
   * `maxKb > 0 ? maxKb * 1024 : undefined`: a positive number of kilobytes
   * becomes a positive byte budget; NaN, zero and negative numbers give none.
   */
  function MaxBytes(maxKb: Num): (m: Option<real>)
    ensures m.Some? <==> maxKb.Finite? && maxKb.value > 0.0
    ensures m.Some? ==> m.value > 0.0 && m.value / 1024.0 == maxKb.value
  {
    if maxKb.Finite? && maxKb.value > 0.0 then Some(maxKb.value * 1024.0) else None
  }

  /**
   * A missing field, an empty one and an upload all give no budget; a text
   * field gives one exactly when it converts to a positive number.
   */
  lemma NoBudgetFields(e: FormEntry, parse: string -> Num)
    ensures e == Absent || e == Text("") || e == Upload ==> MaxBytes(MaxKb(e, parse)).None?
    ensures e.Text? && e.text != "" ==>
      (MaxBytes(MaxKb(e, parse)).Some? <==> parse(e.text).Finite? && parse(e.text).value > 0.0)
  {
  }

  /**
   * `normalizePackaging`: exactly "gembolan", "mika" and "mesh" name their own
   * type; every other string, "vacuum" and "null" included, means vacuum.
   */
  function NormalizePackaging(v: string): (p: Packaging)
    ensures p != Vacuum <==> v in {"gembolan", "mika", "mesh"}
    ensures p != Vacuum ==> p.Name() == v
  {
    if v == "gembolan" then Gembolan
    else if v == "mika" then Mika
    else if v == "mesh" then Mesh
    else Vacuum
  }

  /** Every packaging type survives normalisation of its own name. */
  lemma NormalizeName(p: Packaging)
    ensures NormalizePackaging(p.Name()) == p
  {
  }

  /** Normalising twice is normalising once. */
  lemma NormalizeIdempotent(v: string)
    ensures NormalizePackaging(NormalizePackaging(v).Name()) == NormalizePackaging(v)
  {
    NormalizeName(NormalizePackaging(v));
  }

  /** A missing or uploaded `packagingType` field means vacuum. */
  lemma NonTextPackagingIsVacuum(e: FormEntry)
    requires !e.Text?
    ensures NormalizePackaging(FormString(e)) == Vacuum
  {
  }

  /**
   * `pickPrompt`: the chosen entry is written for the given packaging type,
   * and it shows an ice pack exactly when the type is vacuum and `ice` is set.
   */
  function PickPrompt(packaging: Packaging, ice: bool): (t: Prompt)
    ensures t.Target() == packaging
    ensures t.ShowsIcePack() <==> packaging == Vacuum && ice
  {
    match packaging
    case Vacuum => if ice then FreshVacuumWithIcepack else FreshVacuum
    case Gembolan => FreshGembolan
    case Mika => FreshMika
    case Mesh => FreshMesh
  }

  /** For every type but vacuum the ice flag makes no difference. */
  lemma PickPromptIgnoresIce(packaging: Packaging)
    requires packaging != Vacuum
    ensures PickPrompt(packaging, true) == PickPrompt(packaging, false)
  {
  }

  /** Different (type, effective ice) choices give different prompts. */
  lemma PickPromptInjective(p1: Packaging, ice1: bool, p2: Packaging, ice2: bool)
    requires PickPrompt(p1, ice1) == PickPrompt(p2, ice2)
    ensures p1 == p2 && (p1 == Vacuum ==> ice1 == ice2)
  {
  }

  /** `packaging === "vacuum" && form.get("addIcePack") === "true"` */
  function AddIcePack(packaging: Packaging, field: FormEntry): (ice: bool)
    ensures ice ==> packaging == Vacuum
    ensures packaging == Vacuum ==> (ice <==> IsTrue(field))
  {
    packaging == Vacuum && IsTrue(field)
  }

  /** The form fields the option derivation reads. */
  datatype Form = Form(packagingType: FormEntry, addIcePack: FormEntry, transparentBg: FormEntry, maxKb: FormEntry)

  /** What the route derives from the form before calling a provider. */
  datatype Derived = Derived(packaging: Packaging, addIcePack: bool, prompt: Prompt, post: Postprocess.PostOpts)

  /** app/api/image2/route.ts:39-48 and 79-82 */
  function DeriveOptions(form: Form, parse: string -> Num): (d: Derived)
    ensures d.packaging == NormalizePackaging(FormString(form.packagingType))
    ensures d.prompt.Target() == d.packaging
    ensures d.prompt.ShowsIcePack() <==> d.addIcePack
    ensures d.addIcePack <==> d.packaging == Vacuum && IsTrue(form.addIcePack)
    ensures d.post.transparentBg <==> IsTrue(form.transparentBg)
    ensures d.post.maxBytes == MaxBytes(MaxKb(form.maxKb, parse))
    ensures d.post.maxBytes.Some? ==> d.post.maxBytes.value > 0.0
  {
    var packaging := NormalizePackaging(FormString(form.packagingType));
    var ice := AddIcePack(packaging, form.addIcePack);
    Derived(packaging, ice, PickPrompt(packaging, ice),
            Postprocess.PostOpts(MaxBytes(MaxKb(form.maxKb, parse)), IsTrue(form.transparentBg)))
  }

  /**
   * A form whose `maxKb` gives no budget and without `transparentBg=true` hands the
   * provider's bytes back unchanged.
   */
  lemma NoOptionsPassThrough(c: Codec.ImageCodec, form: Form, parse: string -> Num, png: Codec.Bytes)
    requires MaxBytes(MaxKb(form.maxKb, parse)).None?
    requires !IsTrue(form.transparentBg)
    ensures Postprocess.PostprocessSpec(c, png, DeriveOptions(form, parse).post) == Success(png)
  {
    Postprocess.PassThrough(c, png, DeriveOptions(form, parse).post);
  }

  /**
   * With the budgets the route produces, the post-processing gate is simply
   * "the buffer is longer than the budget".
   */
  lemma RouteBudgetGate(form: Form, parse: string -> Num, buf: Codec.Bytes)
    requires DeriveOptions(form, parse).post.maxBytes.Some?
    ensures Postprocess.OverBudget(buf, DeriveOptions(form, parse).post.maxBytes)
        <==> |buf| as real > DeriveOptions(form, parse).post.maxBytes.value
  {
  }
}
