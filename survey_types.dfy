/** Values shared by the steps of the dataset survey. */
module SurveyTypes {

  /** The outcome of a survey step: a value, or the error that ends the run. */
  datatype Result<T> = Ok(value: T) | Err(error: SurveyError)

  datatype Option<T> = None | Some(value: T)

  /** The location of one entry inside a class directory of a split. */
  datatype ImagePath = ImagePath(cls: string, name: string)

  /** Pixel dimensions of a decoded image, as the imaging library reports them. */
  datatype Size = Size(width: nat, height: nat)

  /** The ways the survey script stops with an exception. */
  datatype SurveyError =
    | NotADirectory(entry: string)   // listing a class entry that is a plain file
    | Undecodable(path: ImagePath)   // the imaging library cannot open a sampled entry
    | NoSampledImage                 // asking the mode of the sampled image when none was opened

  function Min(a: int, b: int): (m: int)
    ensures m <= a && m <= b
    ensures m == a || m == b
  {
    if a <= b then a else b
  }
}
