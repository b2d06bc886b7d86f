/** The limits of the service (service/options.go). */
module Options {

  datatype Limits = Limits(maxBodyBytes: int, defaultPageLimit: int, maxPageLimit: int, maxBatchItems: int,
                           maxAutocompleteUsers: int, maxNamespaceIDAttempts: int, maxPIDAttempts: int, maxAPIKeyAttempts: int)

  ghost predicate Usable(l: Limits) {
    && l.maxBodyBytes >= 0 && l.defaultPageLimit >= 1 && l.maxPageLimit >= 0 && l.maxBatchItems >= 0
    && l.maxAutocompleteUsers >= 1 && l.maxNamespaceIDAttempts >= 1 && l.maxPIDAttempts >= 1 && l.maxAPIKeyAttempts >= 1
  }

  /** A field raised to its least usable value. */
  function AtLeast(least: int, value: int): int {
    if value < least then least else value
  }

  method WithValidValues(limits: Limits) returns (o: Limits)
    ensures Usable(o) && (Usable(limits) ==> o == limits)
    ensures o.defaultPageLimit == AtLeast(1, limits.defaultPageLimit) && o.maxPageLimit == AtLeast(0, limits.maxPageLimit)
    ensures o.maxPIDAttempts == AtLeast(1, limits.maxPIDAttempts) && o.maxAPIKeyAttempts == AtLeast(1, limits.maxAPIKeyAttempts)
    ensures o.maxNamespaceIDAttempts == AtLeast(1, limits.maxNamespaceIDAttempts)
    ensures o.maxBatchItems == AtLeast(0, limits.maxBatchItems) && o.maxBodyBytes == AtLeast(0, limits.maxBodyBytes)
    ensures o.maxAutocompleteUsers == AtLeast(1, limits.maxAutocompleteUsers)
  {
    o := limits;
    if o.maxBodyBytes < 0 {
      o := o.(maxBodyBytes := 0);
    }
    if o.defaultPageLimit < 1 {
      o := o.(defaultPageLimit := 1);
    }
    if o.maxPageLimit < 0 {
      o := o.(maxPageLimit := 0);
    }
    if o.maxBatchItems < 0 {
      o := o.(maxBatchItems := 0);
    }
    if o.maxAutocompleteUsers < 1 {
      o := o.(maxAutocompleteUsers := 1);
    }
    if o.maxNamespaceIDAttempts < 1 {
      o := o.(maxNamespaceIDAttempts := 1);
    }
    if o.maxPIDAttempts < 1 {
      o := o.(maxPIDAttempts := 1);
    }
    if o.maxAPIKeyAttempts < 1 {
      o := o.(maxAPIKeyAttempts := 1);
    }
  }

  /** The page size of internal listings: the default, or the maximum where that is smaller. It is at least one
      item, and within the maximum page size where there is one. */
  function InternalPageLimit(limits: Limits): (pageLimit: int)
    ensures Usable(limits) ==> 1 <= pageLimit && (limits.maxPageLimit > 0 ==> pageLimit <= limits.maxPageLimit)
    ensures pageLimit <= limits.defaultPageLimit
    ensures pageLimit < limits.defaultPageLimit ==> pageLimit == limits.maxPageLimit
  {
    if limits.maxPageLimit > 0 && limits.defaultPageLimit > limits.maxPageLimit then limits.maxPageLimit
    else limits.defaultPageLimit
  }
}
