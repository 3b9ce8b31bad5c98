/** A reference sequence record (`ReferenceSequence`): the fields that the
    reference-package builders read and write. */
module References {

  datatype ReferenceSequence = ReferenceSequence(
    accession: string,
    description: string,
    organism: string,
    lineage: string,
    shortId: string,
    sequence: string,
    locus: string,
    clusterRep: bool,
    clusterLca: string)

  /** A dictionary from TreeSAPP's numeric identifiers (`treesapp_id`,
      `mltree_id`: decimal strings) to records, as its items; an identifier
      is held as its integer value. */
  type Records = seq<(nat, ReferenceSequence)>
}
