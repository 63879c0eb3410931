/** The optional value used throughout the model: `None` stands for JavaScript's
    `undefined` (a missing table entry, a missing attribute) and for `NaN`. */
module Maybe {

  datatype Option<+T> = None | Some(value: T)
}
