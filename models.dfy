/** The record shapes of the upstream risk-details response and of the /check answer. */
module Models {

  /** One entry of `own_categories` or `source_of_funds_categories`. */
  datatype OwnCategory = OwnCategory(address: string, name: string, categoryName: string, risk: int)

  datatype Details = Details(ownCategories: seq<OwnCategory>, sourceOfFundsCategories: seq<OwnCategory>)

  datatype RiskDetailsResponse = RiskDetailsResponse(
    caseId: string,
    requestDatetime: string,
    responseDatetime: string,
    chain: string,
    address: string,
    name: string,
    categoryName: string,
    risk: int,
    details: Details)

  /** The body returned by the /check endpoint: the deduplicated category names. */
  datatype CheckEndpointResponse = CheckEndpointResponse(categoryNames: seq<string>)
}
