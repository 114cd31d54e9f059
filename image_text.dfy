/** The two decisions of the image-to-text page (js/translations.js) that do
    not depend on the OCR engine: whether a chosen file is accepted, and the
    word count shown for the recognised text. */
module ImageText {
  import opened StringOps

  /** 5 × 1024 × 1024 bytes. */
  const MaxImageSize: nat := 5 * 1024 * 1024

  /** What `handleImageFile` does with a file: the two rejections, checked
      in this order, or reading it in. */
  datatype Verdict = NotAnImage | TooLarge | Accepted

  function ValidateImage(fileType: string, size: nat): Verdict
  {
    if !StartsWith(fileType, "image/") then NotAnImage
    else if size > MaxImageSize then TooLarge
    else Accepted
  }

  /** A file is read in exactly when its type starts with `image/` and it
      holds at most 5 MiB; a wrong type is reported whatever the size. */
  lemma ValidateImageIff(fileType: string, size: nat)
    ensures ValidateImage(fileType, size) == Accepted <==>
      StartsWith(fileType, "image/") && size <= 5242880
    ensures !StartsWith(fileType, "image/") ==> ValidateImage(fileType, size) == NotAnImage
  {
  }

  /** A smaller file of the same type is accepted too. */
  lemma SmallerAccepted(fileType: string, size: nat, smaller: nat)
    requires ValidateImage(fileType, size) == Accepted && smaller <= size
    ensures ValidateImage(fileType, smaller) == Accepted
  {
  }

  /** `text.trim() ? text.trim().split(/\s+/).length : 0`. */
  function WordCount(text: string): nat
  {
    var t := Trim(text);
    if t == [] then 0 else |Split(Collapse(t), ' ')|
  }

  /** The count is the number of maximal white-space-free runs of the text. */
  lemma WordCountIsWords(text: string)
    ensures WordCount(text) == |Words(text)|
  {
    var t := Trim(text);
    WordsTrim(text);
    if t == [] {
      assert Words(t) == [] by {
        assert TrimStart(t) == [];
      }
    } else {
      var s := TrimStart(text);
      assert !IsSpace(t[0]) by {
        TrimEndShape(s);
      }
      CollapseFromWord(t);
      WordsShape(t);
      var ws := Words(t);
      assert forall k :: 0 <= k < |ws| ==> ' ' !in ws[k];
      assert Collapse(t) == Join(ws, " ");
      SplitJoin(ws, ' ');
    }
  }
}
