/**
 * Form validation: the image-extension validator and the item form's field
 * constraints. The CSRF token check is a boolean supplied with the request.
 */
module Forms {
  import opened Wrappers
  import opened Strings

  /** The configured `ALLOWED_IMAGE_EXTENSIONS`. */
  const DefaultExtensions: set<string> := {"jpg", "jpeg", "png", "gif"}

  const InvalidExtensionMessage: string := "Invalid file extension."

  /** The text after the last `.` of a name that has one: `filename.rsplit('.', 1)[1]`. */
  function AfterLastDot(filename: string): (ext: string)
    requires '.' in filename
    ensures '.' !in ext
    ensures |ext| < |filename| && filename[|filename| - |ext| - 1] == '.'
    ensures filename == filename[..|filename| - |ext|] + ext
  {
    var i := LastIndexOf(filename, '.').value;
    filename[i + 1..]
  }

  /** `ImageFileValidator.allowed_file`: a dot is present and the last extension is allowed, case-sensitively. */
  predicate AllowedFile(filename: string, validExtensions: set<string>)
  {
    '.' in filename && AfterLastDot(filename) in validExtensions
  }

  /** The check in terms of a position: some dot has no dot after it and what follows it is allowed. */
  lemma {:induction false} AllowedFileMeansLastDotExtension(filename: string, validExtensions: set<string>)
    ensures AllowedFile(filename, validExtensions) <==>
      exists i :: 0 <= i < |filename| && filename[i] == '.' && '.' !in filename[i + 1..]
                  && filename[i + 1..] in validExtensions
  {
    if AllowedFile(filename, validExtensions) {
      var i := LastIndexOf(filename, '.').value;
      assert filename[i] == '.' && '.' !in filename[i + 1..] && filename[i + 1..] in validExtensions;
    }
    if exists i :: 0 <= i < |filename| && filename[i] == '.' && '.' !in filename[i + 1..]
                   && filename[i + 1..] in validExtensions {
      var i :| 0 <= i < |filename| && filename[i] == '.' && '.' !in filename[i + 1..]
               && filename[i + 1..] in validExtensions;
      LastIndexUnique(filename, '.', i);
    }
  }

  /** Only the final extension counts: whatever `stem` holds, `stem.ext` is judged by `ext` alone. */
  lemma {:induction false} OnlyLastExtensionCounts(stem: string, ext: string, validExtensions: set<string>)
    requires '.' !in ext
    ensures AllowedFile(stem + "." + ext, validExtensions) <==> ext in validExtensions
  {
    var f := stem + "." + ext;
    assert f[|stem|] == '.';
    assert f[|stem| + 1..] == ext;
    LastIndexUnique(f, '.', |stem|);
  }

  /** A name without a dot is never allowed, whatever the allowed set. */
  lemma NoDotRejected(filename: string, validExtensions: set<string>)
    requires '.' !in filename
    ensures !AllowedFile(filename, validExtensions)
  {
  }

  /** With the default set: a double extension passes on its last part. */
  lemma DoubleExtensionExample()
    ensures AllowedFile("a.exe.png", DefaultExtensions)
  {
    assert "a.exe.png" == "a.exe" + "." + "png";
    OnlyLastExtensionCounts("a.exe", "png", DefaultExtensions);
  }

  /** With the default set: an extension outside the set fails. */
  lemma DisallowedExtensionExample()
    ensures !AllowedFile("photo.exe", DefaultExtensions)
  {
    assert "photo.exe" == "photo" + "." + "exe";
    assert "exe" !in DefaultExtensions by {
      assert "exe"[0] == 'e';
      assert "jpg"[0] == 'j' && "jpeg"[0] == 'j' && "png"[0] == 'p' && "gif"[0] == 'g';
    }
    OnlyLastExtensionCounts("photo", "exe", DefaultExtensions);
  }

  /** With the default set: the comparison is case-sensitive, so an upper-case extension fails. */
  lemma UpperCaseExtensionExample()
    ensures !AllowedFile("photo.JPG", DefaultExtensions)
  {
    assert "photo.JPG" == "photo" + "." + "JPG";
    assert "JPG" !in DefaultExtensions by {
      assert "JPG"[0] == 'J';
      assert "jpg"[0] == 'j' && "jpeg"[0] == 'j' && "png"[0] == 'p' && "gif"[0] == 'g';
    }
    OnlyLastExtensionCounts("photo", "JPG", DefaultExtensions);
  }

  datatype ImageFileValidator = ImageFileValidator(validExtensions: set<string>, message: string)

  /** `ImageFileValidator.__init__`: a missing or empty message becomes the default one. */
  function NewImageFileValidator(validExtensions: set<string>, message: Option<string>): (v: ImageFileValidator)
    ensures v.validExtensions == validExtensions
    ensures v.message != ""
    ensures message.Some? && message.value != "" ==> v.message == message.value
    ensures !(message.Some? && message.value != "") ==> v.message == InvalidExtensionMessage
  {
    ImageFileValidator(validExtensions, if message.Some? && message.value != "" then message.value else InvalidExtensionMessage)
  }

  /**
   * `ImageFileValidator.__call__` on the uploaded file's name (empty when no
   * file was chosen, which makes the upload falsy): the error it raises, if any.
   */
  function CheckImage(v: ImageFileValidator, upload: string): (err: Option<string>)
    ensures err.None? <==> upload == "" || AllowedFile(upload, v.validExtensions)
    ensures err.Some? ==> err.value == v.message
  {
    if upload != "" && !AllowedFile(upload, v.validExtensions) then Some(v.message) else None
  }

  /** The validator attached to the item form's image field. */
  function ItemImageValidator(): (v: ImageFileValidator)
    ensures v.validExtensions == DefaultExtensions && v.message == InvalidExtensionMessage
  {
    NewImageFileValidator(DefaultExtensions, None)
  }

  /** The data of an `ItemForm` once bound to the request; `categoryId` is None when it is not an integer. */
  datatype ItemFormData = ItemFormData(name: string, description: string, categoryId: Option<int>, upload: string)

  datatype Field = NameField | DescriptionField | CategoryField | ImageField | CsrfField

  /** `validators.Required()`: the data is not empty and not only whitespace. */
  predicate Required(s: string)
  {
    Strip(s) != []
  }

  predicate NameOk(name: string)
  {
    Required(name) && 5 <= |name| <= 120
  }

  predicate DescriptionOk(description: string)
  {
    Required(description) && 10 <= |description|
  }

  /** The select field: the coerced value must be one of the choices (the current category ids). */
  predicate CategoryOk(categoryId: Option<int>, choices: set<int>)
  {
    categoryId.Some? && categoryId.value in choices
  }

  /** Whether one field of the item form (or its CSRF token) passes. */
  predicate FieldOk(f: Field, form: ItemFormData, choices: set<int>, csrfValid: bool)
  {
    match f
    case NameField => NameOk(form.name)
    case DescriptionField => DescriptionOk(form.description)
    case CategoryField => CategoryOk(form.categoryId, choices)
    case ImageField => CheckImage(ItemImageValidator(), form.upload).None?
    case CsrfField => csrfValid
  }

  /**
   * `ItemForm.validate()`: every field is checked, the CSRF token included,
   * and the fields that fail are reported.
   */
  function ItemFormErrors(form: ItemFormData, choices: set<int>, csrfValid: bool): (errs: set<Field>)
    ensures forall f :: f in errs <==> !FieldOk(f, form, choices, csrfValid)
  {
    set f | f in {NameField, DescriptionField, CategoryField, ImageField, CsrfField} && !FieldOk(f, form, choices, csrfValid)
  }

  /** The form validates: no field reports an error. It then names one of the offered categories. */
  predicate ItemFormValid(form: ItemFormData, choices: set<int>, csrfValid: bool)
    ensures ItemFormValid(form, choices, csrfValid) ==> form.categoryId.Some? && form.categoryId.value in choices
  {
    assert CategoryField !in ItemFormErrors(form, choices, csrfValid) ==> FieldOk(CategoryField, form, choices, csrfValid);
    ItemFormErrors(form, choices, csrfValid) == {}
  }

  /** A form that validates carries a name that fits `items.name` and a category among the choices. */
  lemma ValidFormFitsItemRow(form: ItemFormData, choices: set<int>, csrfValid: bool)
    requires ItemFormValid(form, choices, csrfValid)
    ensures 5 <= |form.name| <= 120 && 10 <= |form.description|
    ensures form.categoryId.Some? && form.categoryId.value in choices
    ensures csrfValid
    ensures form.upload == "" || AllowedFile(form.upload, DefaultExtensions)
  {
    assert FieldOk(NameField, form, choices, csrfValid);
    assert FieldOk(DescriptionField, form, choices, csrfValid);
    assert FieldOk(CategoryField, form, choices, csrfValid);
    assert FieldOk(ImageField, form, choices, csrfValid);
    assert FieldOk(CsrfField, form, choices, csrfValid);
  }

  /** A name made only of whitespace fails `Required()` whatever its length. */
  lemma BlankNameRejected(name: string)
    requires forall i :: 0 <= i < |name| ==> IsSpace(name[i])
    ensures !NameOk(name)
  {
    StripEmptyIffBlank(name);
  }

  /** "Kale" (4 characters) is too short for an item name; an absent image never fails the form. */
  lemma ItemFormExamples(description: string, categoryId: int, choices: set<int>)
    ensures !NameOk("Kale")
    ensures NameField in ItemFormErrors(ItemFormData("Kale", description, Some(categoryId), ""), choices, true)
    ensures ImageField !in ItemFormErrors(ItemFormData("Kale", description, Some(categoryId), ""), choices, true)
    ensures ImageField in ItemFormErrors(ItemFormData("Kale", description, Some(categoryId), "photo.exe"), choices, true)
  {
    DisallowedExtensionExample();
  }
}
