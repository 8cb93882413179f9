/** The exceptions raised by the statistics code, one constructor per
    distinct cause. */
module MafErrors {

  datatype Error =
    | NoValueForTag(tag: string)               // lookup of a tag that holds no value
    | InvalidTagName(tag: string)              // write to a single-value result under another tag
    | OutOfRange(value: real, lower: real, upper: real)  // value outside the categorizer's bounds
    | WrongSpeciesCount                        // four-species statistics given other than 4 names
    | DuplicatedSpecies                        // four-species statistics given a name twice
    | WrongSelectionCount                      // polymorphism statistics given other than 2 selections
    | SeveralSequencesForSpecies(species: string)  // more than one row where at most one is allowed
    | LengthError                              // a counter vector too long to allocate
}
